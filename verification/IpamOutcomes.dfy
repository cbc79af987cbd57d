/**
What the allocator's operations on a network promise (pkg/ipam/manager/manager.go): when they succeed, which records
they return, and what becomes of every other record. The promises are stated on names, configurations and records in
use; the functions of `IpamNetwork` are proved to keep them.
*/
module IpamOutcomes {
  import opened Addresses
  import opened Ipam
  import opened IpamNetwork

  // ---- which subnet is meant -------------------------------------------------------------------------

  /** The subnet of this name, IPv4 subnets before IPv6 ones. */
  ghost predicate Names(n: Network, name: string, six: bool, i: nat) {
    && name != "" && name in n.Side(six).names && n.Side(six).names[name] == i
    && (six ==> name !in n.v4.names)
  }

  ghost predicate Known(n: Network, name: string) {
    name != "" && (name in n.v4.names || name in n.v6.names)
  }

  /** The subnet an address is to be assigned in: the named one or, without a name, the first of its family whose
      configuration holds the address. */
  ghost predicate Chosen(n: Network, x: Suite, six: bool, i: nat) {
    && i < |n.Side(six).subnets|
    && if x.subnet != "" then Names(n, x.subnet, six, i)
       else
         && six == (x.ip.fam == IPv6) && n.Side(six).subnets[i].spec.Contains(x.ip)
         && forall j :: 0 <= j < i ==> !n.Side(six).subnets[j].spec.Contains(x.ip)
  }

  lemma ByNameNames(n: Network, name: string)
    requires n.Valid()
    ensures n.ByName(name).Some? <==> Known(n, name)
    ensures n.ByName(name).Some? ==> Names(n, name, n.ByName(name).value.0, n.ByName(name).value.1)
  {
  }

  lemma {:induction false} ByIPFirst(s: Slice, a: Addr, i: nat)
    requires i <= |s.subnets| && forall j :: 0 <= j < i ==> !s.subnets[j].spec.Contains(a)
    ensures s.ByIP(a, i).None? ==> forall j :: 0 <= j < |s.subnets| ==> !s.subnets[j].spec.Contains(a)
    ensures s.ByIP(a, i).Some? ==> forall j :: 0 <= j < s.ByIP(a, i).value ==> !s.subnets[j].spec.Contains(a)
    decreases |s.subnets| - i
  {
    if i < |s.subnets| && !s.subnets[i].spec.Contains(a) {
      ByIPFirst(s, a, i + 1);
    }
  }

  lemma ByNameOrIPChosen(n: Network, x: Suite, six: bool, i: nat)
    requires n.Valid()
    ensures Chosen(n, x, six, i) <==> n.ByNameOrIP(x.subnet, x.ip) == Some((six, i))
  {
    if x.subnet == "" {
      ByIPFirst(n.Side(x.ip.fam == IPv6), x.ip, 0);
    }
  }

  // ---- one address in one subnet -----------------------------------------------------------------------

  ghost function Held(s: Subnet, a: Addr): (ip: Option<IP>) {
    if a in s.using then Some(s.using[a]) else None
  }

  /** Out of use or, where the configuration reserves the address, held by nobody. */
  ghost predicate GivenBack(s: Subnet, t: Subnet, a: Addr) {
    Held(t, a) ==
      if a in s.spec.reserved && a in s.using then Some(s.using[a].(pod := Pod("", ""), status := Reserved)) else None
  }

  /** Reserved for the pod that holds it. */
  ghost predicate SetAside(s: Subnet, t: Subnet, a: Addr) {
    Held(t, a) == if a in s.using then Some(s.using[a].(status := Reserved)) else None
  }

  /** Nothing but records has changed. */
  ghost predicate SameFrame(s: Subnet, t: Subnet) {
    t.spec == s.spec && t.avail == s.avail && t.reservedCount == s.reservedCount
  }

  // ---- Release and Reserve -----------------------------------------------------------------------------

  /** The suites before the first that names no known subnet. */
  ghost predicate StopsAt(n: Network, suites: seq<Suite>, k: nat) {
    && k <= |suites|
    && (forall j :: 0 <= j < k ==> Known(n, suites[j].subnet))
    && (k < |suites| ==> !Known(n, suites[k].subnet))
  }

  /** One of these suites names the address in this subnet. */
  ghost predicate Listed(n: Network, suites: seq<Suite>, six: bool, i: nat, a: Addr)
    requires i < |n.Side(six).subnets|
  {
    var name := n.Side(six).subnets[i].spec.name;
    Suite(name, a) in suites && Names(n, name, six, i)
  }

  ghost predicate SliceFrame(s: Slice, r: Slice) {
    && r.index == s.index && r.names == s.names && |r.subnets| == |s.subnets|
    && forall i :: 0 <= i < |s.subnets| ==> SameFrame(s.subnets[i], r.subnets[i])
  }

  ghost predicate WorkedAt(s: Subnet, t: Subnet, a: Addr, listed: bool, release: bool) {
    if !listed then Held(t, a) == Held(s, a) else if release then GivenBack(s, t, a) else SetAside(s, t, a)
  }

  /** The listed addresses are given back, or set aside; every other record of every subnet is as before. */
  ghost predicate Worked(n: Network, m: Network, suites: seq<Suite>, release: bool) {
    && SliceFrame(n.v4, m.v4) && SliceFrame(n.v6, m.v6)
    && forall six: bool, i: nat, a: Addr :: i < |n.Side(six).subnets| ==>
         WorkedAt(n.Side(six).subnets[i], m.Side(six).subnets[i], a, Listed(n, suites, six, i, a), release)
  }

  /** Release, or Reserve, of a list: it gets through exactly if every suite names a known subnet, and what comes before
      the first that does not takes effect. */
  ghost predicate ListDone(n: Network, suites: seq<Suite>, release: bool, m: Network, ok: bool) {
    && (ok <==> forall j :: 0 <= j < |suites| ==> Known(n, suites[j].subnet))
    && exists k: nat :: StopsAt(n, suites, k) && Worked(n, m, suites[..k], release)
  }

  lemma OneWorked(n: Network, x: Suite, release: bool)
    requires n.Valid() && n.ByName(x.subnet).Some?
    ensures var (six, i) := n.ByName(x.subnet).value;
      var s := n.Side(six).subnets[i];
      Worked(n, n.PutAt(six, i, if release then s.Release(x.ip) else s.Reserve(x.ip)), [x], release)
  {
    var (six, i) := n.ByName(x.subnet).value;
    var s := n.Side(six).subnets[i];
    var t := if release then s.Release(x.ip) else s.Reserve(x.ip);
    var m := n.PutAt(six, i, t);
    ByNameNames(n, x.subnet);
    forall p: bool, j: nat, a: Addr | j < |n.Side(p).subnets|
      ensures WorkedAt(n.Side(p).subnets[j], m.Side(p).subnets[j], a, Listed(n, [x], p, j, a), release)
    {
      if (p, j) == (six, i) {
        assert m.Side(p).subnets[j] == t;
      }
    }
  }

  lemma WorkedTwice(s: Subnet, u: Subnet, t: Subnet, a: Addr, first: bool, second: bool, release: bool)
    requires SameFrame(s, u) && WorkedAt(s, u, a, first, release) && WorkedAt(u, t, a, second, release)
    ensures WorkedAt(s, t, a, first || second, release)
  {
  }

  lemma WorkedOn(n: Network, u: Network, m: Network, x: Suite, rest: seq<Suite>, release: bool)
    requires Worked(n, u, [x], release) && Worked(u, m, rest, release)
    ensures Worked(n, m, [x] + rest, release)
  {
    forall six: bool, i: nat, a: Addr | i < |n.Side(six).subnets|
      ensures WorkedAt(n.Side(six).subnets[i], m.Side(six).subnets[i], a, Listed(n, [x] + rest, six, i, a), release)
    {
      var s, v, t := n.Side(six).subnets[i], u.Side(six).subnets[i], m.Side(six).subnets[i];
      assert SameFrame(s, v);
      assert Listed(u, rest, six, i, a) <==> Listed(n, rest, six, i, a);
      WorkedTwice(s, v, t, a, Listed(n, [x], six, i, a), Listed(n, rest, six, i, a), release);
    }
  }

  lemma NothingWorked(n: Network, release: bool)
    ensures Worked(n, n, [], release)
  {
  }

  lemma FirstWorked(n: Network, u: Network, m: Network, suites: seq<Suite>, release: bool, k: nat)
    requires suites != [] && Known(n, suites[0].subnet) && Worked(n, u, [suites[0]], release)
    requires StopsAt(u, suites[1..], k) && Worked(u, m, suites[1..][..k], release)
    ensures StopsAt(n, suites, k + 1) && Worked(n, m, suites[..k + 1], release)
  {
    WorkedOn(n, u, m, suites[0], suites[1..][..k], release);
    assert [suites[0]] + suites[1..][..k] == suites[..k + 1];
    assert forall name :: Known(u, name) <==> Known(n, name);
    forall j | 0 <= j < k + 1
      ensures Known(n, suites[j].subnet)
    {
      assert j > 0 ==> suites[j] == suites[1..][j - 1];
    }
  }

  lemma {:induction false} ReleaseStops(n: Network, suites: seq<Suite>) returns (k: nat)
    requires n.Valid()
    ensures StopsAt(n, suites, k) && Worked(n, ReleaseAll(n, suites).0, suites[..k], true)
    ensures ReleaseAll(n, suites).1 <==> k == |suites|
    decreases |suites|
  {
    k := 0;
    NothingWorked(n, true);
    if suites != [] {
      ByNameNames(n, suites[0].subnet);
      if n.ByName(suites[0].subnet).Some? {
        var (six, i) := n.ByName(suites[0].subnet).value;
        var u := n.PutAt(six, i, n.Side(six).subnets[i].Release(suites[0].ip));
        OneWorked(n, suites[0], true);
        k := ReleaseStops(u, suites[1..]);
        FirstWorked(n, u, ReleaseAll(n, suites).0, suites, true, k);
        k := k + 1;
      }
    }
  }

  lemma {:induction false} ReserveStops(n: Network, suites: seq<Suite>) returns (k: nat)
    requires n.Valid()
    ensures StopsAt(n, suites, k) && Worked(n, ReserveAll(n, suites).0, suites[..k], false)
    ensures ReserveAll(n, suites).1 <==> k == |suites|
    decreases |suites|
  {
    k := 0;
    NothingWorked(n, false);
    if suites != [] {
      ByNameNames(n, suites[0].subnet);
      if n.ByName(suites[0].subnet).Some? {
        var (six, i) := n.ByName(suites[0].subnet).value;
        var u := n.PutAt(six, i, n.Side(six).subnets[i].Reserve(suites[0].ip));
        OneWorked(n, suites[0], false);
        k := ReserveStops(u, suites[1..]);
        FirstWorked(n, u, ReserveAll(n, suites).0, suites, false, k);
        k := k + 1;
      }
    }
  }

  /** Release gives back exactly the listed addresses up to the first unknown subnet. */
  lemma ReleaseOutcome(n: Network, suites: seq<Suite>)
    requires n.Valid()
    ensures ListDone(n, suites, true, ReleaseAll(n, suites).0, ReleaseAll(n, suites).1)
  {
    var k := ReleaseStops(n, suites);
  }

  /** Reserve sets aside exactly the listed addresses up to the first unknown subnet, each for its pod. */
  lemma ReserveOutcome(n: Network, suites: seq<Suite>)
    requires n.Valid()
    ensures ListDone(n, suites, false, ReserveAll(n, suites).0, ReserveAll(n, suites).1)
  {
    var k := ReserveStops(n, suites);
  }

  // ---- Assign ------------------------------------------------------------------------------------------

  /** The pod may have the address: it is allocatable and free, the pod's own, or reserved and taken by force. */
  ghost predicate Grantable(s: Subnet, pod: Pod, a: Addr, forced: bool) {
    s.spec.Contains(a) && (a !in s.using || s.using[a].pod == pod || (forced && s.using[a].status == Reserved))
  }

  /** The record is that of the address, held by the pod, and the only one that has changed. */
  ghost predicate Granted(s: Subnet, t: Subnet, a: Addr, ip: IP, pod: Pod) {
    && SameFrame(s, t) && t.using == s.using[a := ip]
    && ip.addr == a && ip.subnet == s.spec.name && ip.pod == pod && ip.status == Allocated
    && (if a in s.using then ip == s.using[a].(pod := pod, status := Allocated)
        else RecordOf(ip, s.spec, a, pod, Allocated))
  }

  /** The networks differ in one subnet at most. */
  ghost predicate OnlyAt(n: Network, m: Network, six: bool, i: nat) {
    && m.Side(!six) == n.Side(!six)
    && m.Side(six).index == n.Side(six).index && m.Side(six).names == n.Side(six).names
    && |m.Side(six).subnets| == |n.Side(six).subnets|
    && forall j :: 0 <= j < |n.Side(six).subnets| && j != i ==> m.Side(six).subnets[j] == n.Side(six).subnets[j]
  }

  ghost predicate CanAssign(n: Network, x: Suite, pod: Pod, forced: bool) {
    exists six: bool, i: nat :: Chosen(n, x, six, i) && Grantable(n.Side(six).subnets[i], pod, x.ip, forced)
  }

  ghost predicate AssignedIn(n: Network, m: Network, x: Suite, ip: IP, pod: Pod) {
    exists six: bool, i: nat ::
      && Chosen(n, x, six, i) && OnlyAt(n, m, six, i)
      && Granted(n.Side(six).subnets[i], m.Side(six).subnets[i], x.ip, ip, pod)
  }

  /** First the one address, then the other. */
  ghost predicate BothAssigned(n: Network, m: Network, x: Suite, y: Suite, ip: IP, ip': IP, pod: Pod) {
    exists mid :: AssignedIn(n, mid, x, ip, pod) && AssignedIn(mid, m, y, ip', pod)
  }

  /** Assign for one family. */
  ghost predicate SingleAssigned(n: Network, six: bool, suites: seq<Suite>, pod: Pod, forced: bool,
                                 m: Network, ips: Option<seq<IP>>) {
    && (ips.Some? <==> |suites| == 1 && (suites[0].ip.fam == IPv6) == six && CanAssign(n, suites[0], pod, forced))
    && (ips.None? ==> m == n)
    && (ips.Some? ==> |ips.value| == 1 && AssignedIn(n, m, suites[0], ips.value[0], pod))
  }

  /** Assign for both families, IPv4 first. Where the second address cannot be had, the first stays assigned. */
  ghost predicate DualAssigned(n: Network, suites: seq<Suite>, pod: Pod, forced: bool,
                               m: Network, ips: Option<seq<IP>>) {
    && (ips.Some? <==>
          && |suites| == 2 && suites[0].ip.fam != IPv6 && suites[1].ip.fam == IPv6
          && CanAssign(n, suites[0], pod, forced) && CanAssign(n, suites[1], pod, forced))
    && (ips.Some? ==> |ips.value| == 2 && BothAssigned(n, m, suites[0], suites[1], ips.value[0], ips.value[1], pod))
    && (ips.None? ==> m == n || (|suites| == 2 && exists ip :: AssignedIn(n, m, suites[0], ip, pod)))
  }

  /** One address asked for: whether it can be had, and what then becomes of the network. */
  ghost predicate OneAssigned(n: Network, x: Suite, pod: Pod, can: bool, m: Network, ips: Option<seq<IP>>) {
    && (ips.Some? <==> can)
    && (ips.None? ==> m == n)
    && (ips.Some? ==> |ips.value| == 1 && AssignedIn(n, m, x, ips.value[0], pod))
  }

  lemma AssignGrants(s: Subnet, pod: Pod, a: Addr, forced: bool)
    requires s.Inv()
    ensures var (t, ip) := s.Assign(pod, a, forced);
      && (ip.Some? <==> Grantable(s, pod, a, forced))
      && (ip.None? ==> t == s)
      && (ip.Some? ==> Granted(s, t, a, ip.value, pod))
  {
  }

  lemma AssignedAt(n: Network, x: Suite, six: bool, i: nat, t: Subnet, ip: IP, pod: Pod)
    requires Chosen(n, x, six, i) && Granted(n.Side(six).subnets[i], t, x.ip, ip, pod)
    ensures AssignedIn(n, n.PutAt(six, i, t), x, ip, pod)
  {
    assert n.PutAt(six, i, t).Side(six).subnets[i] == t;
    assert OnlyAt(n, n.PutAt(six, i, t), six, i);
  }

  /** The subnet in which the address is to be assigned, if there is one, is in order. */
  ghost predicate ChosenInv(n: Network, x: Suite)
    requires n.Valid()
  {
    var p := n.ByNameOrIP(x.subnet, x.ip);
    p.Some? ==> n.Side(p.value.0).subnets[p.value.1].Inv()
  }

  lemma CanAssignAt(n: Network, x: Suite, pod: Pod, forced: bool)
    requires n.Valid()
    ensures var p := n.ByNameOrIP(x.subnet, x.ip);
      CanAssign(n, x, pod, forced) <==>
        p.Some? && Grantable(n.Side(p.value.0).subnets[p.value.1], pod, x.ip, forced)
  {
    var p := n.ByNameOrIP(x.subnet, x.ip);
    if p.Some? {
      ByNameOrIPChosen(n, x, p.value.0, p.value.1);
    }
    if CanAssign(n, x, pod, forced) {
      var six: bool, i: nat :| Chosen(n, x, six, i) && Grantable(n.Side(six).subnets[i], pod, x.ip, forced);
      ByNameOrIPChosen(n, x, six, i);
    }
  }

  lemma AssignAtOutcome(n: Network, x: Suite, pod: Pod, forced: bool)
    requires n.Valid() && ChosenInv(n, x)
    ensures var (m, ips) := AssignAt(n, x, pod, forced);
      OneAssigned(n, x, pod, CanAssign(n, x, pod, forced), m, ips)
  {
    CanAssignAt(n, x, pod, forced);
    var p := n.ByNameOrIP(x.subnet, x.ip);
    if p.Some? {
      var (six, i) := p.value;
      var s := n.Side(six).subnets[i];
      AssignGrants(s, pod, x.ip, forced);
      var (t, ip) := s.Assign(pod, x.ip, forced);
      if ip.Some? {
        ByNameOrIPChosen(n, x, six, i);
        AssignedAt(n, x, six, i, t, ip.value, pod);
      } else {
        assert n.Side(six).subnets[i := s] == n.Side(six).subnets;
      }
    }
  }

  lemma AssignOneOutcome(n: Network, six: bool, suites: seq<Suite>, pod: Pod, forced: bool)
    requires n.Inv()
    ensures var (m, ips) := AssignOne(n, six, suites, pod, forced); SingleAssigned(n, six, suites, pod, forced, m, ips)
  {
    if |suites| == 1 {
      AssignAtOutcome(n, suites[0], pod, forced);
    }
  }

  /** What is granted in one family changes nothing for an address of the other. */
  lemma OtherFamily(n: Network, m: Network, x: Suite, ip: IP, y: Suite, pod: Pod, forced: bool)
    requires AssignedIn(n, m, x, ip, pod) && x.ip.fam != y.ip.fam
    ensures CanAssign(m, y, pod, forced) <==> CanAssign(n, y, pod, forced)
  {
    var six: bool, i: nat :| Chosen(n, x, six, i) && OnlyAt(n, m, six, i)
      && Granted(n.Side(six).subnets[i], m.Side(six).subnets[i], x.ip, ip, pod);
    forall p: bool, j: nat
      ensures Chosen(n, y, p, j) <==> Chosen(m, y, p, j)
      ensures Chosen(n, y, p, j) ==>
                (Grantable(n.Side(p).subnets[j], pod, y.ip, forced) <==>
                 Grantable(m.Side(p).subnets[j], pod, y.ip, forced))
    {
      assert |n.Side(p).subnets| == |m.Side(p).subnets|;
      assert forall k :: 0 <= k < |n.Side(p).subnets| ==> n.Side(p).subnets[k].spec == m.Side(p).subnets[k].spec;
    }
  }

  lemma AssignAtKeepsInv(n: Network, x: Suite, pod: Pod, forced: bool)
    requires n.Inv()
    ensures AssignAt(n, x, pod, forced).0.Inv()
  {
    var p := n.ByNameOrIP(x.subnet, x.ip);
    if p.Some? {
      AssignKeepsInv(n.Side(p.value.0).subnets[p.value.1], pod, x.ip, forced);
    }
  }

  lemma OneThenOther(n: Network, mid: Network, m: Network, x: Suite, y: Suite, can: bool, can': bool,
                     ip4: Option<seq<IP>>, ip6: Option<seq<IP>>, pod: Pod)
    requires OneAssigned(n, x, pod, can, mid, ip4)
    requires if ip4.Some? then OneAssigned(mid, y, pod, can', m, ip6) else m == mid && ip6.None?
    ensures ip6.Some? <==> can && can'
    ensures ip6.Some? ==>
              && |ip4.value + ip6.value| == 2
              && BothAssigned(n, m, x, y, (ip4.value + ip6.value)[0], (ip4.value + ip6.value)[1], pod)
    ensures ip6.None? ==> m == n || exists ip :: AssignedIn(n, m, x, ip, pod)
  {
  }

  lemma AssignBothOutcome(n: Network, x: Suite, y: Suite, pod: Pod, forced: bool)
    requires n.Valid() && ChosenInv(n, x) && x.ip.fam != y.ip.fam
    requires var m := AssignAt(n, x, pod, forced).0; m.Valid() && ChosenInv(m, y)
    ensures var (m, ips) := AssignBoth(n, x, y, pod, forced);
      && (ips.Some? <==> CanAssign(n, x, pod, forced) && CanAssign(n, y, pod, forced))
      && (ips.Some? ==> |ips.value| == 2 && BothAssigned(n, m, x, y, ips.value[0], ips.value[1], pod))
      && (ips.None? ==> m == n || exists ip :: AssignedIn(n, m, x, ip, pod))
  {
    var can, can' := CanAssign(n, x, pod, forced), CanAssign(n, y, pod, forced);
    var (mid, ip4) := AssignAt(n, x, pod, forced);
    assert OneAssigned(n, x, pod, can, mid, ip4) by {
      AssignAtOutcome(n, x, pod, forced);
    }
    if ip4.None? {
      OneThenOther(n, mid, mid, x, y, can, can', ip4, None, pod);
    } else {
      var (m, ip6) := AssignAt(mid, y, pod, forced);
      assert OneAssigned(mid, y, pod, can', m, ip6) by {
        OtherFamily(n, mid, x, ip4.value[0], y, pod, forced);
        AssignAtOutcome(mid, y, pod, forced);
      }
      OneThenOther(n, mid, m, x, y, can, can', ip4, ip6, pod);
    }
  }

  /** Without two subnets nothing is assigned. */
  lemma AssignDualGate(n: Network, suites: seq<Suite>, pod: Pod, forced: bool)
    requires n.Valid()
    ensures AssignDual(n, suites, pod, forced) ==
            if |suites| == 2 && suites[0].ip.fam != IPv6 && suites[1].ip.fam == IPv6
               && n.ByNameOrIP(suites[0].subnet, suites[0].ip).Some?
               && n.ByNameOrIP(suites[1].subnet, suites[1].ip).Some?
            then AssignBoth(n, suites[0], suites[1], pod, forced) else (n, None)
  {
  }

  lemma AssignDualOutcome(n: Network, suites: seq<Suite>, pod: Pod, forced: bool)
    requires n.Inv()
    ensures var (m, ips) := AssignDual(n, suites, pod, forced); DualAssigned(n, suites, pod, forced, m, ips)
  {
    AssignDualGate(n, suites, pod, forced);
    if |suites| == 2 && suites[0].ip.fam != IPv6 && suites[1].ip.fam == IPv6 {
      CanAssignAt(n, suites[0], pod, forced);
      CanAssignAt(n, suites[1], pod, forced);
      AssignAtKeepsInv(n, suites[0], pod, forced);
      AssignBothOutcome(n, suites[0], suites[1], pod, forced);
    }
  }

  // ---- Allocate ----------------------------------------------------------------------------------------

  /** The subnet may give an address: it has a free one and is the named one or, without a name, not private. */
  ghost predicate CanTake(s: Slice, name: string, six: bool, i: nat) {
    && i < |s.subnets| && s.subnets[i].Free() != {}
    && if name == "" then !s.subnets[i].spec.private
       else name in s.names && s.names[name] == i && s.subnets[i].spec.ipv6 == six
  }

  /** The positions from a cursor up to, and without, an index, around the end of the list. */
  predicate Before(cursor: nat, j: nat, i: nat) {
    if cursor <= i then cursor <= j < i else cursor <= j || j < i
  }

  /** Without a name, no subnet from the cursor up to this one could have given an address. */
  ghost predicate FirstFrom(s: Slice, name: string, six: bool, i: nat) {
    name == "" ==> forall j: nat :: j < |s.subnets| && Before(s.index, j, i) ==> !CanTake(s, name, six, j)
  }

  /** One free address of one subnet is now held by the pod, under the record returned; the cursor over the subnets is
      there if none was named. Nothing else has changed. */
  ghost predicate TakenFrom(s: Slice, r: Slice, name: string, i: nat, ip: IP, pod: Pod) {
    && i < |s.subnets| && |r.subnets| == |s.subnets| && r.names == s.names
    && Took(s.subnets[i], r.subnets[i], Some(ip), pod)
    && (forall j :: 0 <= j < |s.subnets| && j != i ==> r.subnets[j] == s.subnets[j])
    && r.index == if name == "" then i else s.index
  }

  /** No record has changed. */
  ghost predicate SameRecords(s: Slice, r: Slice) {
    |r.subnets| == |s.subnets| && forall i :: 0 <= i < |s.subnets| ==> r.subnets[i].using == s.subnets[i].using
  }

  ghost predicate SliceTaken(s: Slice, r: Slice, name: string, six: bool, ip: IP, pod: Pod) {
    exists i: nat :: CanTake(s, name, six, i) && FirstFrom(s, name, six, i) && TakenFrom(s, r, name, i, ip, pod)
  }

  ghost predicate CanAllocate(s: Slice, name: string, six: bool) {
    exists i: nat :: CanTake(s, name, six, i)
  }

  function NameAt(names: seq<string>, i: nat): (name: string) {
    if i < |names| then names[i] else ""
  }

  /** Allocate for one family. */
  ghost predicate SingleAllocated(n: Network, six: bool, names: seq<string>, pod: Pod, m: Network,
                                  ips: Option<seq<IP>>) {
    && (ips.Some? <==> |names| <= 1 && CanAllocate(n.Side(six), NameAt(names, 0), six))
    && m.Side(!six) == n.Side(!six)
    && (ips.None? ==> SameRecords(n.Side(six), m.Side(six)))
    && (ips.Some? ==>
          |ips.value| == 1 && SliceTaken(n.Side(six), m.Side(six), NameAt(names, 0), six, ips.value[0], pod))
  }

  /** Allocate for both families: an address of each, IPv4 first, or none at all. */
  ghost predicate DualAllocated(n: Network, names: seq<string>, pod: Pod, m: Network, ips: Option<seq<IP>>) {
    && (ips.Some? <==>
          && (|names| == 0 || |names| == 2)
          && CanAllocate(n.v4, NameAt(names, 0), false) && CanAllocate(n.v6, NameAt(names, 1), true))
    && (ips.None? ==> SameRecords(n.v4, m.v4) && SameRecords(n.v6, m.v6))
    && (ips.Some? ==>
          && |ips.value| == 2
          && SliceTaken(n.v4, m.v4, NameAt(names, 0), false, ips.value[0], pod)
          && SliceTaken(n.v6, m.v6, NameAt(names, 1), true, ips.value[1], pod))
  }

  /** The search stops at the first available subnet. */
  lemma {:induction false} SearchFirst(s: Slice, i: nat, n: nat, j: nat)
    requires i < |s.subnets| && s.Search(i, n).Some? && j < |s.subnets| && Before(i, j, s.Search(i, n).value)
    ensures !s.subnets[j].IsAvailable()
    decreases n
  {
    if !s.subnets[i].IsAvailable() && j != i {
      SearchFirst(s, NextIndex(i, |s.subnets|), n - 1, j);
    }
  }

  lemma AvailableIsFree(s: Subnet)
    requires s.Inv()
    ensures s.IsAvailable() <==> s.Free() != {} && !s.spec.private
  {
    FreeCount(s);
  }

  /** The position is the named one or the first from the cursor on, and can give an address if it has one. */
  ghost predicate Selected(s: Slice, name: string, six: bool, i: nat) {
    && i < |s.subnets| && s.subnets[i].Inv() && FirstFrom(s, name, six, i)
    && (CanTake(s, name, six, i) <==> s.subnets[i].Free() != {})
  }

  /** If any subnet can give an address, the one selected can. */
  ghost predicate Selection(s: Slice, name: string, six: bool, p: Option<nat>) {
    if p.None? then !CanAllocate(s, name, six)
    else Selected(s, name, six, p.value) && (CanAllocate(s, name, six) <==> CanTake(s, name, six, p.value))
  }

  lemma SelectOutcome(s: Slice, name: string, six: bool)
    requires s.Inv()
    ensures Selection(s, name, six, s.Select(name, six))
  {
    forall i | 0 <= i < |s.subnets|
      ensures s.subnets[i].IsAvailable() <==> s.subnets[i].Free() != {} && !s.subnets[i].spec.private
    {
      AvailableIsFree(s.subnets[i]);
    }
    if name == "" {
      SelectAvailable(s, six);
      var p := s.Select(name, six);
      if p.Some? {
        forall j: nat | j < |s.subnets| && Before(s.index, j, p.value)
          ensures !CanTake(s, name, six, j)
        {
          SearchFirst(s, s.index, |s.subnets|, j);
        }
      }
    }
  }

  lemma NextTakes(s: Subnet, pod: Pod)
    requires s.Inv()
    ensures var (t, ip) := s.AllocateNext(pod); Took(s, t, ip, pod) && (ip.Some? <==> s.Free() != {})
  {
    AllocateNextOutcome(s, pod);
    FreeCount(s);
  }

  /** An address is taken in the subnet selected. */
  lemma PointPut(s: Slice, name: string, six: bool, i: nat, t: Subnet, ip: Option<IP>, pod: Pod)
    requires i < |s.subnets| && Took(s.subnets[i], t, ip, pod) && FirstFrom(s, name, six, i)
    requires ip.Some? ==> CanTake(s, name, six, i)
    ensures var r := s.Point(name, i).Put(i, t);
      && (ip.Some? ==> SliceTaken(s, r, name, six, ip.value, pod))
      && (ip.None? ==> SameRecords(s, r))
  {
    var r := s.Point(name, i).Put(i, t);
    if ip.Some? {
      assert TakenFrom(s, r, name, i, ip.value, pod);
    }
  }

  lemma AllocateOneOutcome(n: Network, six: bool, names: seq<string>, pod: Pod)
    requires n.Inv()
    ensures var (m, ips) := AllocateOne(n, six, names, pod); SingleAllocated(n, six, names, pod, m, ips)
  {
    var s, name := n.Side(six), NameAt(names, 0);
    if |names| <= 1 {
      SelectOutcome(s, name, six);
      var p := s.Select(name, six);
      if p.Some? {
        NextTakes(s.subnets[p.value], pod);
        var (t, ip) := s.subnets[p.value].AllocateNext(pod);
        PointPut(s, name, six, p.value, t, ip, pod);
      }
    }
  }

  lemma PointSame(s: Slice, name: string, i: nat)
    ensures SameRecords(s, s.Point(name, i))
  {
  }

  /** An address taken and given back at once leaves the records as they were. */
  lemma PutBack(s: Slice, name: string, i: nat, t: Subnet, ip: IP, pod: Pod)
    requires i < |s.subnets| && s.subnets[i].Inv() && Took(s.subnets[i], t, Some(ip), pod)
    ensures SameRecords(s, s.Point(name, i).Put(i, t.Release(ip.addr)))
  {
    ReleaseUndoesTake(s.subnets[i], t, ip, pod);
  }

  lemma TakeBothOutcome(n: Network, name4: string, name6: string, i: nat, j: nat, pod: Pod)
    requires Selected(n.v4, name4, false, i) && Selected(n.v6, name6, true, j)
    ensures var (m, ips) := TakeBoth(Network(n.v4.Point(name4, i), n.v6.Point(name6, j)), i, j, pod);
      && (ips.Some? <==> CanTake(n.v4, name4, false, i) && CanTake(n.v6, name6, true, j))
      && (ips.None? ==> SameRecords(n.v4, m.v4) && SameRecords(n.v6, m.v6))
      && (ips.Some? ==>
            && |ips.value| == 2
            && SliceTaken(n.v4, m.v4, name4, false, ips.value[0], pod)
            && SliceTaken(n.v6, m.v6, name6, true, ips.value[1], pod))
  {
    var (t4, ip4) := n.v4.subnets[i].AllocateNext(pod);
    var (t6, ip6) := n.v6.subnets[j].AllocateNext(pod);
    NextTakes(n.v4.subnets[i], pod);
    NextTakes(n.v6.subnets[j], pod);
    PointPut(n.v4, name4, false, i, t4, ip4, pod);
    PointPut(n.v6, name6, true, j, t6, ip6, pod);
    PointSame(n.v6, name6, j);
    if ip4.Some? {
      PutBack(n.v4, name4, i, t4, ip4.value, pod);
    }
  }

  lemma SelectedDual(n: Network, names: seq<string>, pod: Pod)
    requires n.Ready() && (|names| == 0 || |names| == 2)
    requires Selection(n.v4, NameAt(names, 0), false, n.v4.Select(NameAt(names, 0), false))
    requires Selection(n.v6, NameAt(names, 1), true, n.v6.Select(NameAt(names, 1), true))
    ensures var (m, ips) := AllocateDual(n, names, pod); DualAllocated(n, names, pod, m, ips)
  {
    var name4, name6 := NameAt(names, 0), NameAt(names, 1);
    var p, q := n.v4.Select(name4, false), n.v6.Select(name6, true);
    if p.Some? {
      PointSame(n.v4, name4, p.value);
      if q.Some? {
        TakeBothOutcome(n, name4, name6, p.value, q.value, pod);
      }
    }
  }

  lemma AllocateDualOutcome(n: Network, names: seq<string>, pod: Pod)
    requires n.Inv()
    ensures var (m, ips) := AllocateDual(n, names, pod); DualAllocated(n, names, pod, m, ips)
  {
    if |names| == 0 || |names| == 2 {
      SelectOutcome(n.v4, NameAt(names, 0), false);
      SelectOutcome(n.v6, NameAt(names, 1), true);
      SelectedDual(n, names, pod);
    }
  }
}
