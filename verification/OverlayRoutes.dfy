/**
The to-overlay route table (pkg/daemon/route/route.go, pkg/daemon/route/utils.go): subnet routes to
the vxlan device, overridden by `throw` routes for the excluded blocks, read by longest prefix match.
*/
module OverlayRoutes {
  import opened Addresses
  import opened RangeSplit
  import opened IPRanges
  import opened ExcludeBlocks

  datatype Route = Throw | Dev(link: int)

  /** A route table: at most one route per destination. */
  type Table = map<Net, Route>

  datatype SubnetInfo = SubnetInfo(
    cidr: Net, gateway: Option<Addr>, excludeIPs: seq<Addr>, included: seq<Range>, forwardIf: string)
  {
    /** The address is kept from the pods of this subnet. */
    ghost predicate Excludes(a: Addr) {
      Excluded(cidr, included, gateway, excludeIPs, a)
    }

    /** What FindSubnetExcludeIPBlocks asks for. */
    ghost predicate InReach() {
      && InnerNet(cidr) && AllValid(included) && AllInner(WithGateway(excludeIPs, gateway))
      && Untangled(cidr, included, WithGateway(excludeIPs, gateway))
    }

    /** Gateway and excluded addresses lie in the subnet, as its validation demands. */
    ghost predicate OwnExcludes() {
      && (forall i :: 0 <= i < |excludeIPs| ==> cidr.Contains(excludeIPs[i]))
      && (gateway.Some? ==> cidr.Contains(gateway.value))
    }
  }

  type Infos = map<Net, SubnetInfo>

  ghost predicate GoodInfos(infos: Infos) {
    forall n :: n in infos ==> infos[n].cidr == n && infos[n].InReach()
  }

  /** The ranges of every subnet lie in it and do not overlap. */
  ghost predicate Fit(infos: Infos) {
    forall n :: n in infos ==> AllInside(infos[n].included, n) && PairwiseApart(infos[n].included)
  }

  ghost predicate ExcludedBySome(infos: Infos, a: Addr) {
    exists n :: n in infos && infos[n].Excludes(a)
  }

  // ---- longest prefix match -----------------------------------------------------------------

  ghost predicate Best(t: Table, a: Addr, n: Net) {
    n in t && n.Contains(a) && forall m :: m in t && m.Contains(a) ==> m.plen <= n.plen
  }

  /** The route of the longest destination prefix that holds the address. */
  ghost function Lookup(t: Table, a: Addr): (r: Option<Route>) {
    if exists n :: Best(t, a, n) then
      var n :| Best(t, a, n);
      Some(t[n])
    else None
  }

  ghost predicate ValidTable(t: Table) {
    forall n :: n in t ==> n.Valid()
  }

  lemma {:induction false} BestExists(t: Table, a: Addr, candidates: set<Net>, c: Net)
    requires c in candidates
    requires forall n :: n in t && n.Contains(a) <==> n in candidates
    ensures exists n :: Best(t, a, n)
  {
    var best, rest := c, candidates - {c};
    while rest != {}
      invariant best in candidates && rest <= candidates
      invariant forall n :: n in candidates - rest ==> n.plen <= best.plen
    {
      var n :| n in rest;
      if best.plen < n.plen {
        best := n;
      }
      rest := rest - {n};
    }
    assert Best(t, a, best);
  }

  /** The lookup answers with the route of the best match, and only fails when nothing matches. */
  lemma LookupBest(t: Table, a: Addr)
    requires ValidTable(t)
    ensures Lookup(t, a).None? <==> forall n :: n in t ==> !n.Contains(a)
    ensures forall n :: Best(t, a, n) ==> Lookup(t, a) == Some(t[n])
  {
    if m :| m in t && m.Contains(a) {
      var candidates := set n | n in t && n.Contains(a);
      BestExists(t, a, candidates, m);
    }
    forall n | Best(t, a, n)
      ensures Lookup(t, a) == Some(t[n])
    {
      var m :| Best(t, a, m) && Lookup(t, a) == Some(t[m]);
      SamePrefixSameBlock(n, m, a);
    }
  }

  // ---- the synchronised table ------------------------------------------------------------------

  /** The table holds the subnets of `nets` and the excluded `blocks`, the latter as throw routes. */
  ghost predicate Synced(t: Table, nets: set<Net>, blocks: set<Net>) {
    && t.Keys == nets + blocks
    && forall n :: n in t ==> (t[n].Throw? <==> n in blocks)
  }

  /** For any subnets and blocks, overlapping or not: an address leaves through the vxlan device exactly
      if some subnet holds it and every excluded block that holds it is strictly wider than that subnet. */
  lemma SyncedLookup(t: Table, nets: set<Net>, blocks: set<Net>, a: Addr)
    requires Synced(t, nets, blocks) && ValidTable(t)
    ensures Lookup(t, a).Some? && Lookup(t, a).value.Dev? <==>
            exists n :: n in nets && n.Contains(a) && forall b :: b in blocks && b.Contains(a) ==> b.plen < n.plen
  {
    LookupBest(t, a);
    if n :| n in nets && n.Contains(a) && forall b :: b in blocks && b.Contains(a) ==> b.plen < n.plen {
      var m :| Best(t, a, m);
      assert n in t;
    }
    if Lookup(t, a).Some? && Lookup(t, a).value.Dev? {
      var m :| Best(t, a, m);
      forall b | b in blocks && b.Contains(a)
        ensures b.plen < m.plen
      {
        assert b in t;
        if b.plen == m.plen {
          SamePrefixSameBlock(b, m, a);
        }
      }
    }
  }

  ghost predicate InBlock(blocks: set<Net>, a: Addr) {
    exists b :: b in blocks && b.Contains(a)
  }

  lemma SplitBlocks(b1: set<Net>, b2: set<Net>, a: Addr)
    ensures InBlock(b1 + b2, a) <==> InBlock(b1, a) || InBlock(b2, a)
  {
  }

  /** Subnets pairwise disjoint; every excluded block stays inside one of them. */
  ghost predicate DisjointNets(nets: set<Net>) {
    forall n, m, a :: n in nets && m in nets && n.Contains(a) && m.Contains(a) ==> n == m
  }

  ghost predicate BlocksInside(blocks: set<Net>, nets: set<Net>) {
    forall b :: b in blocks ==> exists n :: n in nets && forall a :: b.Contains(a) ==> n.Contains(a)
  }

  lemma InsideIsLonger(b: Net, n: Net)
    requires b.Valid() && n.Valid() && forall a :: b.Contains(a) ==> n.Contains(a)
    ensures n.plen <= b.plen
  {
    ContainsInterval(b, b.First());
    if b.plen < n.plen {
      Laminar(n, b, b.First());
      ContainsInterval(b, b.LastIP());
      ContainsInterval(n, b.LastIP());
      ContainsInterval(n, b.First());
      Powers.Pow2Monotonic(n.HostBits(), b.HostBits());
    }
  }

  /** With disjoint subnets, the vxlan device gets exactly the addresses of a subnet in no excluded block. */
  lemma SyncedMeaning(t: Table, nets: set<Net>, blocks: set<Net>, a: Addr)
    requires Synced(t, nets, blocks) && ValidTable(t)
    requires DisjointNets(nets) && BlocksInside(blocks, nets)
    ensures Lookup(t, a).Some? && Lookup(t, a).value.Dev? <==>
            InBlock(nets, a) && !InBlock(blocks, a)
  {
    SyncedLookup(t, nets, blocks, a);
    forall n, b | n in nets && n.Contains(a) && b in blocks && b.Contains(a)
      ensures n.plen <= b.plen
    {
      var m :| m in nets && forall x :: b.Contains(x) ==> m.Contains(x);
      assert m == n;
      assert b in t && n in t;
      InsideIsLonger(b, n);
    }
  }

  // ---- the blocks of the subnets ---------------------------------------------------------------------

  /** The blocks are those of the subnets: each within the excluded addresses of one, together all of them. */
  ghost predicate BlocksOfInfos(infos: Infos, blocks: set<Net>) {
    && (forall b :: b in blocks ==>
          b.Valid() && exists n :: n in infos && forall a :: b.Contains(a) ==> infos[n].Excludes(a))
    && (forall a :: ExcludedBySome(infos, a) ==> InBlock(blocks, a))
  }

  lemma BlocksMeaning(infos: Infos, blocks: set<Net>, a: Addr)
    requires BlocksOfInfos(infos, blocks)
    ensures ExcludedBySome(infos, a) <==> InBlock(blocks, a)
  {
  }

  lemma OwnBlocksInside(infos: Infos, blocks: set<Net>)
    requires GoodInfos(infos) && forall n :: n in infos ==> infos[n].OwnExcludes()
    requires forall b :: b in blocks ==> exists n :: n in infos && forall a :: b.Contains(a) ==> infos[n].Excludes(a)
    ensures BlocksInside(blocks, infos.Keys)
  {
    forall b | b in blocks
      ensures exists n :: n in infos.Keys && forall a :: b.Contains(a) ==> n.Contains(a)
    {
      var n :| n in infos && forall a :: b.Contains(a) ==> infos[n].Excludes(a);
      assert n in infos.Keys && forall a :: b.Contains(a) ==> n.Contains(a);
    }
  }

  lemma UnionInside(b1: set<Net>, n1: set<Net>, b2: set<Net>, n2: set<Net>)
    requires BlocksInside(b1, n1) && BlocksInside(b2, n2)
    ensures BlocksInside(b1 + b2, n1 + n2)
  {
    forall b | b in b1 + b2
      ensures exists n :: n in n1 + n2 && forall a :: b.Contains(a) ==> n.Contains(a)
    {
      if b in b1 {
        var n :| n in n1 && forall a :: b.Contains(a) ==> n.Contains(a);
        assert n in n1 + n2;
      } else {
        var n :| n in n2 && forall a :: b.Contains(a) ==> n.Contains(a);
        assert n in n1 + n2;
      }
    }
  }

  /** What the lookup needs to know of the blocks, whatever subnets they come from. */
  lemma OverlayBlocks(local: Infos, remote: Infos, localBlocks: set<Net>, remoteBlocks: set<Net>)
    requires GoodInfos(local) && GoodInfos(remote)
    requires forall n :: n in local ==> local[n].OwnExcludes()
    requires forall n :: n in remote ==> remote[n].OwnExcludes()
    requires BlocksOfInfos(local, localBlocks) && BlocksOfInfos(remote, remoteBlocks)
    ensures BlocksInside(localBlocks + remoteBlocks, local.Keys + remote.Keys)
    ensures forall n :: n in local.Keys + remote.Keys + (localBlocks + remoteBlocks) ==> n.Valid()
  {
    OwnBlocksInside(local, localBlocks);
    OwnBlocksInside(remote, remoteBlocks);
    UnionInside(localBlocks, local.Keys, remoteBlocks, remote.Keys);
  }

  lemma BlocksOf(info: SubnetInfo, blocks: seq<Net>)
    requires forall a :: InSome(blocks, a) <==> info.Excludes(a)
    ensures forall b, a :: b in blocks && b.Contains(a) ==> info.Excludes(a)
    ensures forall a :: info.Excludes(a) ==> InBlock((set b | b in blocks), a)
  {
    forall b, a | b in blocks && b.Contains(a)
      ensures info.Excludes(a)
    {
      var i :| 0 <= i < |blocks| && blocks[i] == b;
      assert InSome(blocks, a);
    }
    forall a | info.Excludes(a)
      ensures InBlock((set b | b in blocks), a)
    {
      assert InSome(blocks, a);
      var i :| 0 <= i < |blocks| && blocks[i].Contains(a);
      assert blocks[i] in blocks;
    }
  }

  lemma AddBlocks(done: Infos, blocks: set<Net>, n: Net, info: SubnetInfo, more: seq<Net>)
    requires n !in done && BlocksOfInfos(done, blocks)
    requires forall i :: 0 <= i < |more| ==> more[i].Valid()
    requires forall a :: InSome(more, a) <==> info.Excludes(a)
    ensures BlocksOfInfos(done[n := info], blocks + set b | b in more)
  {
    var infos, all := done[n := info], blocks + set b | b in more;
    BlocksOf(info, more);
    forall b | b in all
      ensures b.Valid() && exists m :: m in infos && forall a :: b.Contains(a) ==> infos[m].Excludes(a)
    {
      if b in blocks {
        var m :| m in done && forall a :: b.Contains(a) ==> done[m].Excludes(a);
        assert m in infos && infos[m] == done[m];
      } else {
        assert n in infos && infos[n] == info;
      }
    }
    forall a | ExcludedBySome(infos, a)
      ensures InBlock(all, a)
    {
      SplitBlocks(blocks, (set b | b in more), a);
      var m :| m in infos && infos[m].Excludes(a);
      assert m != n ==> ExcludedBySome(done, a);
    }
  }

  /** The blocks of all subnets together, or an error if one of them has ranges that do not fit. */
  method FindExcludeIPBlockMap(infos: Infos) returns (r: ExcludeBlocks.Result<set<Net>>)
    requires GoodInfos(infos)
    ensures r.Ok? <==> Fit(infos)
    ensures r.Ok? ==> BlocksOfInfos(infos, r.value)
  {
    var blocks: set<Net>, todo := {}, infos.Keys;
    ghost var done: Infos := map[];
    while todo != {}
      invariant todo <= infos.Keys && done.Keys == infos.Keys - todo
      invariant forall n :: n in done ==>
                  done[n] == infos[n] && AllInside(done[n].included, n) && PairwiseApart(done[n].included)
      invariant BlocksOfInfos(done, blocks)
    {
      var n :| n in todo;
      var info := infos[n];
      var found := FindSubnetExcludeIPBlocks(info.cidr, info.included, info.gateway, info.excludeIPs);
      if found.Err? {
        return Err;
      }
      AddBlocks(done, blocks, n, info, found.value);
      blocks := blocks + set b | b in found.value;
      todo, done := todo - {n}, done[n := info];
    }
    assert done == infos;
    return Ok(blocks);
  }

  // ---- what the lookup means --------------------------------------------------------------------------

  /** The addresses that pods of some overlay subnet may use. */
  ghost predicate Reachable(local: Infos, remote: Infos, a: Addr) {
    && InBlock(local.Keys + remote.Keys, a)
    && !ExcludedBySome(local, a) && !ExcludedBySome(remote, a)
  }

  /** Every subnet's bounds are known, and its excluded addresses are its own. */
  ghost predicate Sound(infos: Infos) {
    GoodInfos(infos) && forall n :: n in infos ==> infos[n].OwnExcludes()
  }

  /** An address of a subnet that no block holds takes the route of that subnet. */
  lemma SubnetRoute(t: Table, nets: set<Net>, blocks: set<Net>, a: Addr, n: Net)
    requires Synced(t, nets, blocks) && ValidTable(t) && DisjointNets(nets)
    requires n in nets && n.Contains(a) && !InBlock(blocks, a)
    ensures n !in blocks && Lookup(t, a) == Some(t[n])
  {
    LookupBest(t, a);
    forall m | m in t && m.Contains(a)
      ensures m == n
    {
      assert m !in blocks;
    }
    assert Best(t, a, n);
  }

  lemma OverlayMeaning(t: Table, local: Infos, remote: Infos, localBlocks: set<Net>, remoteBlocks: set<Net>, a: Addr)
    requires DisjointNets(local.Keys + remote.Keys)
    requires BlocksInside(localBlocks + remoteBlocks, local.Keys + remote.Keys)
    requires ValidTable(t) && Synced(t, local.Keys + remote.Keys, localBlocks + remoteBlocks)
    requires ExcludedBySome(local, a) <==> InBlock(localBlocks, a)
    requires ExcludedBySome(remote, a) <==> InBlock(remoteBlocks, a)
    ensures Lookup(t, a).Some? && Lookup(t, a).value.Dev? <==>
            && InBlock(local.Keys + remote.Keys, a)
            && !ExcludedBySome(local, a) && !ExcludedBySome(remote, a)
  {
    SyncedMeaning(t, local.Keys + remote.Keys, localBlocks + remoteBlocks, a);
    SplitBlocks(localBlocks, remoteBlocks, a);
  }

  lemma SubnetRoutes(t: Table, nets: set<Net>, blocks: set<Net>, a: Addr)
    requires Synced(t, nets, blocks) && ValidTable(t) && DisjointNets(nets)
    ensures !InBlock(blocks, a) ==>
      forall n :: n in nets && n.Contains(a) ==> n in t && n !in blocks && Lookup(t, a) == Some(t[n])
  {
    if !InBlock(blocks, a) {
      forall n | n in nets && n.Contains(a)
        ensures n in t && n !in blocks && Lookup(t, a) == Some(t[n])
      {
        SubnetRoute(t, nets, blocks, a, n);
      }
    }
  }

  /** The lookup finds a device for exactly the reachable addresses, and it is the device of their subnet. */
  lemma OverlayCorrect(t: Table, local: Infos, remote: Infos, localBlocks: set<Net>, remoteBlocks: set<Net>, a: Addr)
    requires Sound(local) && Sound(remote) && DisjointNets(local.Keys + remote.Keys)
    requires BlocksOfInfos(local, localBlocks) && BlocksOfInfos(remote, remoteBlocks)
    requires Synced(t, local.Keys + remote.Keys, localBlocks + remoteBlocks)
    ensures Lookup(t, a).Some? && Lookup(t, a).value.Dev? <==> Reachable(local, remote, a)
    ensures forall n :: n in local.Keys + remote.Keys && n.Contains(a) && Reachable(local, remote, a) ==>
              n in t && n !in localBlocks + remoteBlocks && Lookup(t, a) == Some(t[n])
  {
    OverlayBlocks(local, remote, localBlocks, remoteBlocks);
    BlocksMeaning(local, localBlocks, a);
    BlocksMeaning(remote, remoteBlocks, a);
    OverlayMeaning(t, local, remote, localBlocks, remoteBlocks, a);
    SubnetRoutes(t, local.Keys + remote.Keys, localBlocks + remoteBlocks, a);
    SplitBlocks(localBlocks, remoteBlocks, a);
  }

  // ---- the manager -----------------------------------------------------------------------------

  /** A route that the first loop keeps. */
  predicate Kept(routes: Table, local: Infos, remote: Infos, n: Net) {
    n in routes && (routes[n].Throw? || n in local || n in remote)
  }

  /** The route over the link that a subnet names now. */
  function Named(local: Infos, remote: Infos, links: map<string, int>, overlayIf: string, n: Net): (r: Route) {
    if n in remote then Dev(if overlayIf in links then links[overlayIf] else 0)
    else Dev(if n in local && local[n].forwardIf in links then links[local[n].forwardIf] else 0)
  }

  /** A device route that was there already is left as it is, unless the subnet is both local and remote. */
  predicate Left(before: Table, local: Infos, remote: Infos, n: Net) {
    n in before && before[n].Dev? && (n !in remote || n !in local)
  }

  /** The route of a subnet: its earlier device if it had one, else the link it names. */
  function Device(before: Table, local: Infos, remote: Infos, links: map<string, int>, overlayIf: string, n: Net)
    : (r: Route)
  {
    if Left(before, local, remote, n) then before[n] else Named(local, remote, links, overlayIf, n)
  }

  /** The lookup answers with a device exactly for the reachable addresses. */
  ghost predicate DevicesReachable(t: Table, local: Infos, remote: Infos) {
    forall a :: Lookup(t, a).Some? && Lookup(t, a).value.Dev? <==> Reachable(local, remote, a)
  }

  /** Every reachable address takes the device of its subnet. */
  ghost predicate Routed(t: Table, before: Table, local: Infos, remote: Infos, links: map<string, int>,
                         overlayIf: string) {
    forall a, n :: n in local.Keys + remote.Keys && n.Contains(a) && Reachable(local, remote, a) ==>
      Lookup(t, a) == Some(Device(before, local, remote, links, overlayIf, n))
  }

  /** Every reachable address takes the link that its subnet names now. */
  ghost predicate RoutedAsNamed(t: Table, local: Infos, remote: Infos, links: map<string, int>, overlayIf: string) {
    forall a, n :: n in local.Keys + remote.Keys && n.Contains(a) && Reachable(local, remote, a) ==>
      Lookup(t, a) == Some(Named(local, remote, links, overlayIf, n))
  }

  ghost predicate HasReachable(local: Infos, remote: Infos, n: Net) {
    exists a :: n.Contains(a) && Reachable(local, remote, a)
  }

  /** No device route that is left over, of a subnet with a reachable address, names another link. */
  ghost predicate NoneStale(before: Table, local: Infos, remote: Infos, links: map<string, int>, overlayIf: string) {
    forall n :: n in local.Keys + remote.Keys && Left(before, local, remote, n) && HasReachable(local, remote, n) ==>
      before[n] == Named(local, remote, links, overlayIf, n)
  }

  /** The links named now are taken if and only if no left-over route names another. */
  lemma NamedExactly(t: Table, before: Table, local: Infos, remote: Infos, links: map<string, int>, overlayIf: string)
    requires Routed(t, before, local, remote, links, overlayIf)
    ensures RoutedAsNamed(t, local, remote, links, overlayIf) <==> NoneStale(before, local, remote, links, overlayIf)
  {
    if RoutedAsNamed(t, local, remote, links, overlayIf) {
      forall n | n in local.Keys + remote.Keys && Left(before, local, remote, n) && HasReachable(local, remote, n)
        ensures before[n] == Named(local, remote, links, overlayIf, n)
      {
        var a :| n.Contains(a) && Reachable(local, remote, a);
        assert Lookup(t, a) == Some(Device(before, local, remote, links, overlayIf, n));
      }
    }
    if NoneStale(before, local, remote, links, overlayIf) {
      forall a, n | n in local.Keys + remote.Keys && n.Contains(a) && Reachable(local, remote, a)
        ensures Lookup(t, a) == Some(Named(local, remote, links, overlayIf, n))
      {
        assert HasReachable(local, remote, n);
      }
    }
  }

  /** A subnet that was routed over one link and now names another keeps its old route. */
  lemma StaleRoute(n: Net, link: int, vxlan: int)
    requires InnerNet(n) && link != vxlan
    ensures var local := map[n := SubnetInfo(n, None, [], [], "vxlan")];
      && Sound(local) && DisjointNets(local.Keys)
      && Device(map[n := Dev(link)], local, map[], map["vxlan" := vxlan], "vxlan", n) == Dev(link)
      && !NoneStale(map[n := Dev(link)], local, map[], map["vxlan" := vxlan], "vxlan")
  {
    var local: Infos, none: Infos := map[n := SubnetInfo(n, None, [], [], "vxlan")], map[];
    assert n in local.Keys + none.Keys;
    ContainsInterval(n, n.First());
    assert Reachable(local, none, n.First());
    assert HasReachable(local, none, n) && Left(map[n := Dev(link)], local, none, n);
  }

  /** For example 10.0.0.0/24, once routed over link 7, when the vxlan device has link 3. */
  lemma StaleTen()
    ensures !NoneStale(map[TEN := Dev(7)], map[TEN := SubnetInfo(TEN, None, [], [], "vxlan")], map[],
                       map["vxlan" := 3], "vxlan")
  {
    TenValid();
    StaleRoute(TEN, 7, 3);
  }

  /** A device for exactly the reachable addresses, that of their subnet; and for all of them the link named now, if
      and only if no left-over route names another. */
  ghost predicate Delivers(t: Table, before: Table, local: Infos, remote: Infos, links: map<string, int>,
                           overlayIf: string) {
    && DevicesReachable(t, local, remote)
    && Routed(t, before, local, remote, links, overlayIf)
    && (RoutedAsNamed(t, local, remote, links, overlayIf) <==> NoneStale(before, local, remote, links, overlayIf))
  }

  lemma OverlayRouted(t: Table, before: Table, local: Infos, remote: Infos, links: map<string, int>, overlayIf: string,
                      localBlocks: set<Net>, remoteBlocks: set<Net>)
    requires Sound(local) && Sound(remote) && DisjointNets(local.Keys + remote.Keys)
    requires BlocksOfInfos(local, localBlocks) && BlocksOfInfos(remote, remoteBlocks)
    requires Synced(t, local.Keys + remote.Keys, localBlocks + remoteBlocks)
    requires forall n :: n in t && n !in localBlocks + remoteBlocks ==>
               t[n] == Device(before, local, remote, links, overlayIf, n)
    ensures Delivers(t, before, local, remote, links, overlayIf)
  {
    forall a
      ensures Lookup(t, a).Some? && Lookup(t, a).value.Dev? <==> Reachable(local, remote, a)
    {
      OverlayCorrect(t, local, remote, localBlocks, remoteBlocks, a);
    }
    forall a, n | n in local.Keys + remote.Keys && n.Contains(a) && Reachable(local, remote, a)
      ensures Lookup(t, a) == Some(Device(before, local, remote, links, overlayIf, n))
    {
      OverlayCorrect(t, local, remote, localBlocks, remoteBlocks, a);
    }
    NamedExactly(t, before, local, remote, links, overlayIf);
  }

  /** The table after the first loop, and the subnets it found there. */
  ghost predicate Pruned(t0: Table, t1: Table, local: Infos, remote: Infos, existLocal: set<Net>,
                         existRemote: set<Net>) {
    && (forall n :: n in t1 <==> Kept(t0, local, remote, n))
    && (forall n :: n in t1 ==> n in t0 && t1[n] == t0[n])
    && (forall n :: n in existLocal <==> n in t0 && t0[n].Dev? && n in local)
    && (forall n :: n in existRemote <==> n in t0 && t0[n].Dev? && n !in local && n in remote)
  }

  /** The table with device routes added through the named links. */
  ghost predicate Patched(t0: Table, t1: Table, ifNames: map<Net, string>, links: map<string, int>) {
    && (forall n :: n in ifNames ==> ifNames[n] in links)
    && (forall n :: n in t1 <==> n in t0 || n in ifNames)
    && (forall n :: n in t1 ==> t1[n] == if n in ifNames then Dev(links[ifNames[n]]) else t0[n])
  }

  /** Every subnet has its device route, and no other destination has one. */
  ghost predicate DeviceRoutes(t0: Table, t: Table, local: Infos, remote: Infos, links: map<string, int>,
                               overlayIf: string) {
    && (forall n :: n in local || n in remote ==> n in t && t[n] == Device(t0, local, remote, links, overlayIf, n))
    && (forall n :: n in t && t[n].Dev? ==> n in local || n in remote)
  }

  /** The tables before and after the three loops over device routes. */
  lemma DeviceTable(t0: Table, t1: Table, t2: Table, t3: Table, local: Infos, remote: Infos,
                    existLocal: set<Net>, existRemote: set<Net>, toLocal: map<Net, string>, toRemote: map<Net, string>,
                    links: map<string, int>, overlayIf: string)
    requires Pruned(t0, t1, local, remote, existLocal, existRemote)
    requires toLocal == map n | n in local && n !in existLocal :: local[n].forwardIf
    requires toRemote == map n | n in remote && n !in existRemote :: overlayIf
    requires Patched(t1, t2, toLocal, links) && Patched(t2, t3, toRemote, links)
    ensures DeviceRoutes(t0, t3, local, remote, links, overlayIf)
  {
  }

  class Manager {
    var table: Table
    var local: Infos
    var remote: Infos
    var localUnderlay: Infos
    var remoteUnderlay: Infos
    var overlayIf: string
    var links: map<string, int>
    /** The destinations for which the kernel refuses to change a route. */
    var broken: set<Net>

    /** Every link that a subnet needs exists, and the kernel refuses nothing. */
    ghost predicate Willing()
      reads this`local, this`remote, this`overlayIf, this`links, this`broken
    {
      && broken == {}
      && (forall n :: n in local ==> local[n].forwardIf in links)
      && (forall n :: n in remote ==> overlayIf in links)
    }

    /** The ranges of every subnet fit, those of underlay subnets too. */
    ghost predicate AllFit()
      reads this`local, this`remote, this`localUnderlay, this`remoteUnderlay
    {
      Fit(local) && Fit(remote) && Fit(localUnderlay) && Fit(remoteUnderlay)
    }

    /** Removes the device routes of unknown subnets and reports the known ones. */
    method PruneRoutes() returns (ok: bool, existLocal: set<Net>, existRemote: set<Net>)
      modifies this`table
      ensures ok <==> forall n :: n in old(table) && !Kept(old(table), local, remote, n) ==> n !in broken
      ensures ok ==> Pruned(old(table), table, local, remote, existLocal, existRemote)
    {
      var routes := table;
      var todo := routes.Keys;
      existLocal, existRemote := {}, {};
      while todo != {}
        invariant todo <= routes.Keys
        invariant forall n :: n in table <==> n in routes && (n in todo || Kept(routes, local, remote, n))
        invariant forall n :: n in table ==> table[n] == routes[n]
        invariant forall n :: n in routes && n !in todo && !Kept(routes, local, remote, n) ==> n !in broken
        invariant forall n :: n in existLocal <==> n in routes && n !in todo && routes[n].Dev? && n in local
        invariant forall n :: n in existRemote <==>
                    (n in routes && n !in todo && routes[n].Dev? && n !in local && n in remote)
      {
        var n :| n in todo;
        todo := todo - {n};
        if routes[n].Throw? {
        } else if n in local {
          existLocal := existLocal + {n};
        } else if n in remote {
          existRemote := existRemote + {n};
        } else if n in broken {
          assert !Kept(routes, local, remote, n);
          return false, {}, {};
        } else {
          table := table - {n};
        }
      }
      ok := true;
    }

    /** Adds a device route for every listed subnet. */
    method AddRoutes(ifNames: map<Net, string>) returns (ok: bool)
      modifies this`table
      ensures ok <==> forall n :: n in ifNames ==> ifNames[n] in links && n !in broken
      ensures ok ==> Patched(old(table), table, ifNames, links)
    {
      var todo := ifNames.Keys;
      while todo != {}
        invariant todo <= ifNames.Keys
        invariant forall n :: n in ifNames && n !in todo ==> ifNames[n] in links && n !in broken
        invariant table.Keys == old(table).Keys + (ifNames.Keys - todo)
        invariant forall n :: n in table ==>
                    table[n] == if n in ifNames && n !in todo then Dev(links[ifNames[n]]) else old(table)[n]
      {
        var n :| n in todo;
        if ifNames[n] !in links || n in broken {
          return false;
        }
        table := table[n := Dev(links[ifNames[n]])];
        todo := todo - {n};
      }
      ok := true;
    }

    /** Makes the throw routes of the table those of the given blocks (ensureExcludedIPBlockRoutes). */
    method EnsureExcludedIPBlockRoutes(blocks: set<Net>) returns (ok: bool)
      modifies this`table
      ensures ok <==>
              && blocks !! broken
              && forall n :: n in old(table) && old(table)[n].Throw? && n !in blocks ==> n !in broken
      ensures ok ==> forall n :: n in table <==> (n in old(table) && old(table)[n].Dev?) || n in blocks
      ensures ok ==> forall n :: n in table ==> table[n] == if n in blocks then Throw else old(table)[n]
    {
      var routes := table;
      var todo := set n | n in routes && routes[n].Throw? && n !in blocks;
      while todo != {}
        invariant todo <= set n | n in routes && routes[n].Throw? && n !in blocks
        invariant forall n :: n in routes && routes[n].Throw? && n !in blocks && n !in todo ==> n !in broken
        invariant forall n :: n in table <==> n in routes && (routes[n].Dev? || n in blocks || n in todo)
        invariant forall n :: n in table ==> table[n] == routes[n]
      {
        var n :| n in todo;
        if n in broken {
          return false;
        }
        table := table - {n};
        todo := todo - {n};
      }
      ghost var pruned := table;
      todo := blocks;
      while todo != {}
        invariant todo <= blocks && (blocks - todo) !! broken
        invariant table.Keys == pruned.Keys + (blocks - todo)
        invariant forall n :: n in table ==> table[n] == if n in blocks - todo then Throw else pruned[n]
      {
        var n :| n in todo;
        if n in broken {
          return false;
        }
        table := table[n := Throw];
        todo := todo - {n};
      }
      ok := true;
    }

    /** The three loops over device routes. */
    method SyncDeviceRoutes() returns (ok: bool)
      modifies this`table
      ensures Willing() ==> ok
      ensures ok ==> DeviceRoutes(old(table), table, local, remote, links, overlayIf)
    {
      var existLocal, existRemote;
      ok, existLocal, existRemote := PruneRoutes();
      if !ok {
        return;
      }
      ghost var pruned := table;
      var toLocal := map n | n in local && n !in existLocal :: local[n].forwardIf;
      assert Willing() ==> forall n :: n in toLocal ==> toLocal[n] in links && n !in broken;
      ok := AddRoutes(toLocal);
      if !ok {
        return;
      }
      ghost var patched := table;
      var toRemote := map n | n in remote && n !in existRemote :: overlayIf;
      assert Willing() ==> forall n :: n in toRemote ==> toRemote[n] in links && n !in broken;
      ok := AddRoutes(toRemote);
      if !ok {
        return;
      }
      DeviceTable(old(table), pruned, patched, table, local, remote, existLocal, existRemote, toLocal, toRemote,
                  links, overlayIf);
    }

    /** From any earlier table, a complete run leaves the subnets and blocks and nothing else; a device
        route that was there already keeps its device. */
    method EnsureToOverlaySubnetRoutes(blocks: set<Net>) returns (ok: bool)
      modifies this`table
      ensures Willing() ==> ok
      ensures ok ==> Synced(table, local.Keys + remote.Keys, blocks)
      ensures ok ==> forall n :: n in table && n !in blocks ==>
                       table[n] == Device(old(table), local, remote, links, overlayIf, n)
    {
      ok := SyncDeviceRoutes();
      if !ok {
        return;
      }
      ok := EnsureExcludedIPBlockRoutes(blocks);
    }

    /** The blocks of all subnets are computed before any route is touched, those of underlay subnets first. */
    method FindBlocks() returns (ok: bool, localBlocks: set<Net>, remoteBlocks: set<Net>)
      requires GoodInfos(local) && GoodInfos(remote) && GoodInfos(localUnderlay) && GoodInfos(remoteUnderlay)
      ensures ok == AllFit()
      ensures ok ==> BlocksOfInfos(local, localBlocks) && BlocksOfInfos(remote, remoteBlocks)
    {
      ok, localBlocks, remoteBlocks := false, {}, {};
      var underlay := FindExcludeIPBlockMap(localUnderlay);
      if underlay.Err? {
        return;
      }
      underlay := FindExcludeIPBlockMap(remoteUnderlay);
      if underlay.Err? {
        return;
      }
      var blocks := FindExcludeIPBlockMap(local);
      if blocks.Err? {
        return;
      }
      localBlocks := blocks.value;
      blocks := FindExcludeIPBlockMap(remote);
      if blocks.Err? {
        return;
      }
      remoteBlocks := blocks.value;
      ok := true;
    }

    /** The routes, once the blocks are known. */
    method SyncWithBlocks(localBlocks: set<Net>, remoteBlocks: set<Net>) returns (ok: bool)
      requires Sound(local) && Sound(remote) && DisjointNets(local.Keys + remote.Keys)
      requires BlocksOfInfos(local, localBlocks) && BlocksOfInfos(remote, remoteBlocks)
      modifies this`table
      ensures Willing() ==> ok
      ensures ok ==> Delivers(table, old(table), local, remote, links, overlayIf)
    {
      ok := EnsureToOverlaySubnetRoutes(localBlocks + remoteBlocks);
      if ok {
        OverlayRouted(table, old(table), local, remote, links, overlayIf, localBlocks, remoteBlocks);
      }
    }

    /** The overlay part of SyncRoutes, from any earlier table, for disjoint subnets that hold their own gateway and
        excluded addresses: the lookup answers with a device exactly for the addresses of an overlay subnet that are
        not excluded, and with the device of that subnet. That is the vxlan device named now, for all of them, if and
        only if no device route left over from before names another. */
    method SyncToOverlay() returns (ok: bool)
      requires Sound(local) && Sound(remote) && DisjointNets(local.Keys + remote.Keys)
      requires GoodInfos(localUnderlay) && GoodInfos(remoteUnderlay)
      modifies this`table
      ensures ok ==> AllFit()
      ensures Willing() && AllFit() ==> ok
      ensures ok ==> Delivers(table, old(table), local, remote, links, overlayIf)
    {
      var found, localBlocks, remoteBlocks := FindBlocks();
      if !found {
        return false;
      }
      ok := SyncWithBlocks(localBlocks, remoteBlocks);
    }
  }
}
