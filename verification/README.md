# Hybridnet in Dafny

Hybridnet is a container network for Kubernetes that joins overlay and underlay subnets. This project models the
parts of it that compute something, and proves what they promise:

- **Address arithmetic and block splitting.** Addresses are numbers with a family (`Powers`, `Addresses`); the
  byte-level code agrees with them (`AddressBytes`). A range is split into CIDR blocks (`RangeSplit`, `IPRanges`), and
  a subnet's ranges, excluded addresses and gateway are turned into the blocks its pods must not use
  (`ExcludeBlocks`).
- **Routing.** The to-overlay route table, read by longest prefix match (`OverlayRoutes`), and the priorities of the
  policy rules (`RulePriority`).
- **The IPAM allocator.** One subnet (`Ipam`), the subnets of a network and the manager's operations (`IpamNetwork`),
  what each of them promises on names, configurations and records (`IpamOutcomes`), runs of operations (`IpamRuns`),
  usage figures (`IpamUsage`), the objects that are updated in place (`IpamObjects`), the range checks of the API
  objects (`AddressRanges`) and the subnets made from them (`RangeSubnets`).
- **ipset.** The generated restore script, executed command by command (`IPSetRestore`).
- **Remote clusters.** The UUID lock and the daemon hub, the reconciles of all clusters as one interleaved protocol
  (`ClusterProtocol`), and a single reconcile from start to end, in the protocol and on the objects
  (`ClusterReconcile`).
- **Names and packets.** Object names made from addresses (`Strings`, `DnsNames`) and the ARP codec (`ArpPacket`).

Pure code is modelled by datatypes and functions. Objects that are changed in place (`IPRange`, the route manager, the
allocator's subnets, slices and networks, the UUID lock, the daemon hub, the reconciler, the rule table, the ARP packet)
are classes; their methods are proved against functions or predicates on values, and the laws are proved about those.

Some promises do not hold of the code as it is. For each, the model keeps the code, shows an input that fails, and
proves exactly when the promise holds:

- A to-overlay sync keeps every device route of a known subnet, whatever its link. All reachable addresses go to the
  link their subnet names now if and only if no kept route of a subnet with a reachable address names another one.
- `CalculateCapacity` subtracts the length of the exclude list. It agrees with the allocator's addresses, and the
  gateway, if and only if that list has no duplicates and stays within the range. Validation accepts a range whose start
  lies behind its default end; there the figure, made from the distance, is right only if as many addresses are
  excluded.
- Validation of a range accepts a block of two addresses, which the allocator then refuses; of the accepted ranges it
  takes exactly those with a block of at least four.
- The dual-stack figure counts private subnets, which no default allocation uses, and is computed in 32 bits. It is
  right if and only if the smaller wrapped count of free addresses is the smaller count of those outside private
  subnets.
- `assignDualStack` has no rollback; a failure leaves the first address assigned whenever it was newly granted.
- The next rule priority found is behind the three basic rules if and only if there is no gap before them, so another
  owner that removes a rule can break the order.
- `RefreshWithBuiltinOptions` does not empty a left-over temporary set; the refresh is right if and only if no
  left-over element is missing from the new ones.
- `TryAddIP` adds just the address it is given, except for 0.0.0.1 next to a range that starts at 0.0.0.0: the
  predecessor of 0.0.0.0 is 0.0.0.1, because the sign of -1 is dropped. If 0.0.0.0 was the whole range, the range now
  starts behind its end, and splitting it runs on until `NextIP` panics.
- `NextIP` and `PrevIP` leave the IPv6 family on values whose shortest form has four bytes and on IPv4-mapped values,
  and `NextIP` panics on the last address of a family.
- `LastIP` of an IPv4 block held in 16 bytes decrements the fourth of them and yields an IPv6 address.
- `ToIPFormat(ToDNSFormat(ip))` yields `<nil>` when the text of the address starts or ends with a `::` for three groups
  or more.
- `MarshalBinary` computes the buffer size in eight bits and panics beyond 255 bytes. The comment of `NewPacket`
  promises an error for hardware addresses of different lengths; the code exempts a broadcast target, and such a
  packet survives the wire only if the lengths are equal all the same.

Check the project with `dafny verify dfyconfig.toml`.

## Model

| member | source | states |
|---|---|---|
| RangeSplit.TilesExact | pkg/daemon/utils/ip_range.go:158-172 | Blocks that tile a range cover exactly its addresses, and no address lies in two of them. |
| RangeSplit.GreedyMaximal | pkg/daemon/utils/ip_range.go:187-216 | Every CIDR block inside the range lies inside one block of the greedy split. |
| RangeSplit.GreedyMinimal | pkg/daemon/utils/ip_range.go:158-172 | No list of CIDR blocks with the same union, overlapping or not, is shorter than the greedy split. |
| RangeSplit.GreedyShort | pkg/daemon/utils/ip_range.go:158-172 | A split in a family of W bits has at most 2W - 2 blocks. |
| IPRanges.CalculateIPLastZeroBits | pkg/daemon/utils/ip_range.go:174-185 | The largest number of trailing zero bits, up to the width of the family. |
| IPRanges.FindTheFirstLargestCidr | pkg/daemon/utils/ip_range.go:187-216 | The largest valid block that starts at the start and ends by the end, and the address behind it, if any is left. |
| IPRanges.IPRange.TryAddIP | pkg/daemon/utils/ip_range.go:49-66 | Succeeds exactly for an address inside or next to the range; then the range covers exactly one address more, if and only if the address is not 0.0.0.1 at a range from 0.0.0.0, and is a range still, if and only if 0.0.0.0 was not all of it. |
| IPRanges.IPRange.SplitIPRangeToIPBlocks | pkg/daemon/utils/ip_range.go:158-172 | Terminates with the greedy split of the range: aligned blocks, end to end, each the largest that fits. |
| IPRanges.CreateIPRange | pkg/daemon/utils/ip_range.go:34-47 | Fails exactly if the end is below the start. |
| ExcludeBlocks.SortByStart | pkg/daemon/utils/ip_range.go:77-79 | A permutation, in order of the start, that is pairwise disjoint exactly if the input is. |
| ExcludeBlocks.ConsecutiveIsApart | pkg/daemon/utils/ip_range.go:81-126 | In sorted order, comparing neighbours decides whether all ranges are pairwise disjoint. |
| ExcludeBlocks.GapsExact | pkg/daemon/utils/ip_range.go:81-126 | After each range, the gaps collected so far cover exactly the addresses before it that no range covers. |
| ExcludeBlocks.CollectGaps | pkg/daemon/utils/ip_range.go:81-126 | Succeeds exactly if every range is inside the CIDR and neighbours do not overlap; then it holds the gaps. |
| ExcludeBlocks.AbsorbIP | pkg/daemon/utils/ip_range.go:128-148 | One excluded address is absorbed by a neighbouring range or gets its own; the union grows by just that address. |
| ExcludeBlocks.FindSubnetExcludeIPBlocks | pkg/daemon/utils/ip_range.go:69-156 | Succeeds exactly if the included ranges lie in the CIDR and are pairwise disjoint; the union of the blocks is then exactly the CIDR without the included ranges, if any are given, plus the excluded addresses and the gateway. Blocks from 0.0.0.0 are covered where the predecessor of 0.0.0.0 is not asked for. |
| OverlayRoutes.LookupBest | pkg/daemon/route/route.go:397-464 | Longest prefix match is well defined: nothing is found exactly if no destination holds the address, and all best routes agree. |
| OverlayRoutes.SyncedLookup | pkg/daemon/route/route.go:397-464 | In any synced table an address is sent to a device exactly if some subnet holds it with a longer prefix than every excluded block that does. |
| OverlayRoutes.SyncedMeaning | pkg/daemon/route/route.go:397-464 | With disjoint subnets that hold their excluded blocks, exactly the addresses in a subnet and in no block go to a device. |
| OverlayRoutes.SubnetRoute | pkg/daemon/route/route.go:397-464 | An address of a subnet that no block holds is sent by the route of that very subnet. |
| OverlayRoutes.FindExcludeIPBlockMap | pkg/daemon/route/utils.go:529-544 | Succeeds exactly if every subnet's ranges are fit; the blocks then cover exactly what some subnet excludes, each within one subnet. |
| OverlayRoutes.Manager.FindBlocks | pkg/daemon/route/route.go:302-318 | Succeeds exactly if the ranges of all four kinds of subnets are fit, underlay ones included. |
| OverlayRoutes.Manager.PruneRoutes | pkg/daemon/route/route.go:397-420 | From any prior table, device routes of unknown subnets are gone, all other routes stay, and the known ones are reported; fails exactly if the kernel refuses such a removal. |
| OverlayRoutes.Manager.AddRoutes | pkg/daemon/route/route.go:422-457 | Each missing subnet gets a route to its device and no other route changes, exactly if every link exists and the kernel refuses none. |
| OverlayRoutes.Manager.EnsureExcludedIPBlockRoutes | pkg/daemon/route/utils.go:498-527 | Throw routes are exactly those of the blocks; device routes to other destinations stay. |
| OverlayRoutes.Manager.EnsureToOverlaySubnetRoutes | pkg/daemon/route/route.go:397-464 | From any prior table, the destinations are exactly the overlay subnets and the blocks, with throw routes for the blocks; every other subnet has the device route it had, or else the link it names. |
| OverlayRoutes.Manager.SyncToOverlay | pkg/daemon/route/route.go:300-323 | Succeeds where ranges fit, links exist and the kernel refuses nothing, and never where ranges do not fit; then, from any earlier table, longest prefix match finds a device for exactly the addresses of local or remote overlay subnets that are not excluded, and it is the one kept for the subnet of the address or else named by it. |
| OverlayRoutes.NamedExactly | pkg/daemon/route/route.go:409-457 | After such a sync every reachable address goes to the link its subnet names now if and only if no device route of a subnet with a reachable address named another link before it. |
| OverlayRoutes.StaleRoute | pkg/daemon/route/route.go:409-417 | For every subnet in reach and every two links, a table that fails: the old route of the subnet is kept. |
| OverlayRoutes.StaleTen | pkg/daemon/route/route.go:409-417 | The same for 10.0.0.0/24. |
| Ipam.FreeCount | pkg/ipam/types/subnet.go:314-331 | The counters never go negative: listed minus used is the number of free addresses. |
| Ipam.TryOutcome | pkg/ipam/types/subnet.go:333-360 | The search takes one free address and changes no other, or has seen only addresses in use. |
| Ipam.AllocateNextOutcome | pkg/ipam/types/subnet.go:333-360 | From any cursor position, an address is found exactly if the counters say one is left; the invariant is kept and the count grows by one. |
| Ipam.ReleaseUndoesTake | pkg/ipam/types/subnet.go:362-368 | Releasing what was just allocated restores the addresses in use. |
| Ipam.AssignOutcome | pkg/ipam/types/subnet.go:374-403 | Assign succeeds exactly for an allocatable address that is free, the pod's own, or reserved and forced; then only that address changes hands, and asking again changes nothing. |
| Ipam.AssignKeepsInv | pkg/ipam/types/subnet.go:374-403 | Assign keeps the subnet's invariant. |
| Ipam.ReleaseKeepsInv | pkg/ipam/types/subnet.go:362-368 | Release keeps the subnet's invariant, for reserved addresses too. |
| Ipam.ReleaseUndoesAssign | pkg/ipam/types/subnet.go:362-403 | Releasing a free address that was assigned restores the subnet. |
| Ipam.RetainedForOwner | pkg/ipam/types/subnet.go:370-403 | A reserved address goes back to its pod exactly as it was; another pod gets it only by force. |
| Ipam.ReservedNotHandedOut | pkg/ipam/types/subnet.go:333-372 | No search hands out a reserved address. |
| Ipam.SubnetStepKeepsInv | pkg/ipam/types/subnet.go:333-403 | Each operation of a run keeps the invariant. |
| Ipam.TryEnds | pkg/ipam/types/subnet.go:333-360 | A search moves the cursor over addresses in use only, up to the one it hands out, or around all it may try. |
| Ipam.TriedIsServed | pkg/ipam/types/subnet.go:333-360 | An address that the cursor comes by in an allocation is in use, or is the one handed out. |
| Ipam.Fairness | pkg/ipam/types/subnet.go:333-360 | Over every run: if two allocations return the same address, then for every other available address some allocation after the first and up to the second finds it in use or returns it. |
| IpamNetwork.SearchMisses | pkg/ipam/types/subnet.go:69-85 | The cyclic search over subnets passes over none that is available. |
| IpamNetwork.SelectAvailable | pkg/ipam/types/network.go:115-141 | Without a name a subnet is found exactly if one is available, and it is. |
| IpamNetwork.AllocateOneComplete | pkg/ipam/manager/manager.go:165-225 | Allocation in one family succeeds exactly if some subnet of it that is not private has a free address. |
| IpamNetwork.JoinOutcome | pkg/ipam/types/subnet.go:42-59 | A subnet that has joined is found by its name, other names lead where they led, and the cursor is at it exactly if it was the last one used. |
| IpamOutcomes.SearchFirst | pkg/ipam/types/subnet.go:69-85 | The search stops at the first available subnet from the cursor on. |
| IpamOutcomes.SelectOutcome | pkg/ipam/types/network.go:115-141 | If any subnet can give an address, named or not, the one selected can; without a name it is the first from the cursor on. |
| IpamOutcomes.AllocateOneOutcome | pkg/ipam/manager/manager.go:165-225 | With at most one name, succeeds exactly if the named subnet, or without a name one that is not private, has a free address. Then one free address of that subnet is held by the pod under the record returned, with gateway, net ID, subnet and network of its configuration; nothing else changes but cursors. Otherwise no record changes. |
| IpamOutcomes.AllocateDualOutcome | pkg/ipam/manager/manager.go:227-261 | With no name or two, succeeds exactly if both families can give an address; the records returned are the IPv4 one and the IPv6 one, in this order. Otherwise no record changes. |
| IpamOutcomes.AssignOneOutcome | pkg/ipam/manager/manager.go:294-352 | Succeeds exactly for one suite whose address is of the family asked for and, in the subnet of that name or else the first that may hold it, is allocatable and free, the pod's own, or reserved and forced; the one record returned is that of the address, held by the pod, and every other record stays. |
| IpamOutcomes.AssignDualOutcome | pkg/ipam/manager/manager.go:354-389 | Succeeds exactly if both addresses, IPv4 first, can be had; the records come in this order. Otherwise nothing changes but, at most, the first address. |
| IpamOutcomes.ReleaseOutcome | pkg/ipam/manager/manager.go:392-422 | Succeeds exactly if every suite names a known subnet. Each address listed before the first unknown one is out of use in its subnet or, where configured as reserved, held by nobody; every other record of every subnet stays. |
| IpamOutcomes.ReserveOutcome | pkg/ipam/manager/manager.go:425-455 | The same for Reserve, where each listed record becomes reserved and keeps its pod. |
| IpamRuns.TakeBothKeeps | pkg/ipam/manager/manager.go:249-261 | A dual-stack allocation, rolled back or not, takes no address from its owner. |
| IpamRuns.ApplyKeeps | pkg/ipam/manager/manager.go:135-455 | Every operation keeps all invariants and takes no address of a subnet from its owner but those it releases or reserves in that subnet. |
| IpamRuns.ApplyPromised | pkg/ipam/manager/manager.go:135-455 | Each operation, for each family mode, has the outcome above. |
| IpamRuns.StepPromised | pkg/ipam/manager/manager.go:135-455 | An operation with complete names has it on the network it names, and changes no other network. |
| IpamRuns.RunKeeps | pkg/ipam/manager/manager.go:135-455 | The same over every run on all networks. |
| IpamRuns.RunOn | pkg/ipam/manager/manager.go:135-455 | A longer run goes on from where the shorter one stopped. |
| IpamRuns.OwnershipHolds | pkg/ipam/manager/manager.go:135-455 | Over every run, an address allocated to a pod stays with it unless a release or reserve names that address in that subnet. |
| IpamRuns.NoDoubleHolding | pkg/ipam/manager/manager.go:135-455 | With disjoint subnets, after every run no address of a network is held in two subnets. |
| IpamUsage.UsageWrapped | pkg/ipam/types/usage.go:26-37 | The sum of 32-bit figures is the true sum of listed, used and free addresses modulo 2^32. |
| IpamUsage.UsageExact | pkg/ipam/types/subnet.go:105-115 | The figures are exact while fewer than 2^32 addresses are listed. |
| IpamUsage.DualStep | pkg/ipam/manager/manager.go:227-261 | A default dual-stack allocation succeeds exactly if both families have a free address outside private subnets, and takes one of each; a failed one changes no subnet. |
| IpamUsage.DualRunOutcomes | pkg/ipam/manager/manager.go:227-261 | In a run of such allocations exactly the first ones succeed, as many as the smaller family has free addresses outside private subnets. |
| IpamUsage.FigureIsOpen | pkg/ipam/types/network.go:153-164 | A figure tells how many of every run succeed if and only if it is that number. |
| IpamUsage.DualStackFigure | pkg/ipam/types/network.go:153-164 | The reported figure is what every run of default allocations gets, if and only if the smaller of the two counts of free addresses modulo 2^32 is the smaller count of those outside private subnets. |
| IpamUsage.OpenIsFree | pkg/ipam/types/subnet.go:69-85 | The two counts of a family agree if and only if no private subnet has a free address. |
| IpamUsage.FigureWithoutPrivate | pkg/ipam/types/network.go:153-164 | So the figure is right where they agree and fewer than 2^32 addresses are listed in each family. |
| IpamUsage.PrivateOverstates | pkg/ipam/types/network.go:153-164 | A concrete network with private subnets whose figure is 1 and in which no default allocation succeeds. |
| IpamUsage.DualFailureRestores | pkg/ipam/manager/manager.go:227-261 | A failed dual-stack allocation, subnets named or not, leaves every address in use as it was. |
| IpamUsage.AssignDualFailure | pkg/ipam/manager/manager.go:354-389 | A failed dual-stack assignment changes nothing if and only if its first address was not newly granted. |
| IpamUsage.AssignDualNotAtomic | pkg/ipam/manager/manager.go:379-385 | A concrete network of two acceptable subnets in which a failed assignment leaves an address assigned. |
| IpamObjects.SubnetObject.AllocateNext | pkg/ipam/types/subnet.go:333-360 | The loop over the cursor has the outcome and the new state of the search. |
| IpamObjects.SubnetObject.Release | pkg/ipam/types/subnet.go:362-368 | The new state, with a reserved address back in its reservation. |
| IpamObjects.SubnetObject.Reserve | pkg/ipam/types/subnet.go:370-372 | The new state, with the owner kept on record. |
| IpamObjects.SubnetObject.Assign | pkg/ipam/types/subnet.go:374-403 | Result and new state in all four cases. |
| IpamObjects.SubnetObject.FilterReserved | pkg/ipam/types/subnet.go:249-257 | Reserved addresses that may not be allocated are dropped, and the rest counted. |
| IpamObjects.SubnetObject.CollectUsing | pkg/ipam/types/subnet.go:259-284 | In use are exactly the reserved addresses and the given ones of this subnet; the given record wins. |
| IpamObjects.SubnetObject.ListAvailable | pkg/ipam/types/subnet.go:286-297 | Listed are exactly the allocatable addresses that are not reserved, in order, with the cursor at the last one allocated. |
| IpamObjects.SubnetObject.Sync | pkg/ipam/types/subnet.go:243-300 | Establishes the invariant on which all allocator laws rest, from any subnet with usable bounds; in use are exactly the reserved addresses and the given records of the subnet. |
| IpamObjects.SubnetObject.Canonicalize | pkg/ipam/types/subnet.go:144-208 | Fills in missing bounds, and accepts exactly the subnets that pass validation. |
| IpamObjects.SubnetObject.Prepare | pkg/ipam/types/subnet.go:42-59 | Succeeds exactly for an acceptable configuration; the configuration is then the given one with its bounds filled in and the reserved addresses filtered, and the records in use are the given ones. |
| IpamObjects.SliceObject.GetAvailableSubnet | pkg/ipam/types/subnet.go:69-85 | The cyclic loop finds what the search finds, and leaves the cursor there. |
| IpamObjects.SliceObject.GetSubnetByIP | pkg/ipam/types/subnet.go:87-95 | The first subnet that may hold the address. |
| IpamObjects.SliceObject.TotalUsage | pkg/ipam/types/subnet.go:105-115 | The loop computes the 32-bit sum; the last allocation is the subnet at the cursor. |
| IpamObjects.SliceObject.AddSubnet | pkg/ipam/types/subnet.go:42-59 | A subnet is added exactly if it is acceptable; then its configuration and records come from the given ones, it is known by name, and gets the cursor if it was last used. |
| IpamObjects.NetworkObject.AddSubnet | pkg/ipam/types/network.go:79-84 | The same on the side of the subnet's family; the other side is unchanged and the network's invariant kept. |
| IpamObjects.NetworkObject.GetSubnetByNameOrIP | pkg/ipam/types/network.go:86-113 | The subnet found by name, or without one by address. |
| IpamObjects.NetworkObject.AllocateOne | pkg/ipam/manager/manager.go:165-225 | Result and new state of the whole network are those of the operation whose outcome `IpamOutcomes.AllocateOneOutcome` states. |
| IpamObjects.NetworkObject.AllocateDual | pkg/ipam/manager/manager.go:227-261 | The same for two families, with the rollback (`IpamOutcomes.AllocateDualOutcome`). |
| IpamObjects.NetworkObject.AssignOne | pkg/ipam/manager/manager.go:294-352 | The same for one given address (`IpamOutcomes.AssignOneOutcome`). |
| IpamObjects.NetworkObject.AssignDual | pkg/ipam/manager/manager.go:354-389 | The same for two given addresses, without a rollback (`IpamOutcomes.AssignDualOutcome`). |
| IpamObjects.NetworkObject.Release | pkg/ipam/manager/manager.go:392-422 | The loop over the list has the result and the new state whose outcome `IpamOutcomes.ReleaseOutcome` states. |
| IpamObjects.NetworkObject.Reserve | pkg/ipam/manager/manager.go:425-455 | The same for reservations (`IpamOutcomes.ReserveOutcome`). |
| AddressRanges.PrecheckSound | pkg/apis/networking/v1/utils.go:238-243 | Ranges that share an address have blocks one of which holds the other's first address, so the early exit is safe. |
| AddressRanges.AcceptedValid | pkg/apis/networking/v1/utils.go:108-183 | What validation accepts, within reach of NextIP, meets the conditions of the checks below. |
| AddressRanges.DefaultRange | pkg/apis/networking/v1/utils.go:193-219 | A range without bounds has every address of its block that is not excluded, but the first and, in IPv4, the last. |
| AddressRanges.Intersect | pkg/apis/networking/v1/utils.go:229-281 | True exactly if the versions agree and some address is in both ranges and excluded from neither. |
| AddressRanges.CapacityExact | pkg/apis/networking/v1/utils.go:193-219 | The capacity is the allocator's listed and reserved addresses plus the gateway if and only if the excluded addresses are distinct and in the range or, for a range whose first address lies behind its last, as many as the addresses between the two. |
| AddressRanges.BackwardsRange | pkg/apis/networking/v1/utils.go:150-152 | 10.0.0.0/24 from 10.0.0.255 on is accepted, has capacity 2, and its subnet has no address at all. |
| AddressRanges.ExcludedTwice | pkg/apis/networking/v1/utils.go:193-219 | An address excluded twice is accepted and subtracted twice. |
| AddressRanges.PreparedIsBuilt | pkg/utils/transform/ipam.go:29-46 | A subnet prepared from the transferred range is built from that range. |
| RangeSubnets.AcceptedIsAcceptable | pkg/ipam/types/subnet.go:159-208 | An accepted range becomes an acceptable subnet if and only if it is named, has a network, and its block has at least four addresses. |
| RangeSubnets.TwoAddresses | pkg/ipam/types/subnet.go:172-176 | 10.0.0.0/31 is accepted and refused. |
| RangeSubnets.SameAddresses | pkg/utils/transform/ipam.go:29-46 | The allocator may give exactly the addresses of the range, but the gateway. |
| RangeSubnets.PrepareRange | pkg/utils/transform/ipam.go:29-46 | From a range to its subnet: succeeds exactly for an acceptable one; then each part of the configuration comes from its own field, and the capacity counts the addresses if and only if the excluded addresses fit. |
| IPSetRestore.RunSets | pkg/daemon/ipset/ipset.go:502-534 | From a compatible kernel the commands for all sets run without an error. |
| IPSetRestore.RestoreCorrect | pkg/daemon/ipset/ipset.go:493-548 | From any compatible kernel the script ends with every managed set holding exactly its entries, no temporary set left and every other set untouched. |
| IPSetRestore.RestoreAtomic | pkg/daemon/ipset/ipset.go:493-548 | At every prefix of the script each managed set holds its old content, or is new and empty, or holds exactly its new content. |
| IPSetRestore.SortStrings | pkg/daemon/ipset/ipset.go:493-500 | Each name once, in lexicographic order. |
| IPSetRestore.HoldsMadeFrom | pkg/daemon/ipset/ipset.go:504-527 | What a restored set holds: the options of its definition, read back word by word, the elements of its entries and no other, each with the extensions given last. |
| IPSetRestore.BuildIPSetRestore | pkg/daemon/ipset/ipset.go:493-548 | The generated script, from every kernel state that fits, restores all sets, options and entries, and touches no other; after every prefix of it each set holds its old content or exactly its new one. |
| IPSetRestore.RefreshExact | pkg/daemon/ipset/ipset.go:641-674 | A refresh ends without the temporary set and with other sets untouched, and the set holds exactly the new entries if and only if no left-over element is missing from them. |
| IPSetRestore.RefreshLeftOver | pkg/daemon/ipset/ipset.go:641-674 | A concrete left-over set whose element ends up in a set that should be empty. |
| ClusterProtocol.UUIDMutex.Lock | pkg/controllers/multicluster/uuid_mutex.go:45-62 | New exactly for a free UUID that is not empty, held exactly for one of the name's own; then the name holds it as its latest. Every other UUID keeps its holder and every other name its latest, and the invariant is kept. |
| ClusterProtocol.UUIDMutex.Unlock | pkg/controllers/multicluster/uuid_mutex.go:64-76 | Succeeds exactly for a locked UUID. Afterwards nobody holds it, no name has it as latest, every other UUID keeps its holder and every other latest stays; the invariant is kept. |
| ClusterProtocol.UnlockUndoesLock | pkg/controllers/multicluster/uuid_mutex.go:45-76 | Unlocking a newly locked UUID restores every holder. |
| ClusterProtocol.UUIDMutex.GetLatestUUID | pkg/controllers/multicluster/uuid_mutex.go:78-84 | The latest UUID of the name, which the name holds. |
| ClusterProtocol.UUIDMutex.GetUUIDs | pkg/controllers/multicluster/uuid_mutex.go:86-97 | Each UUID locked by the name exactly once. |
| ClusterProtocol.DaemonHub.Register | pkg/managerruntime/daemonhub.go:31-44 | Succeeds exactly if nothing is registered under the UUID; nothing else changes, and a new daemon does not run. |
| ClusterProtocol.DaemonHub.Unregister | pkg/managerruntime/daemonhub.go:54-69 | Fails exactly for a running daemon; else nothing is left under the UUID. Other registrations and all running daemons stay, so none runs without a registration. |
| ClusterProtocol.DaemonHub.Run | pkg/managerruntime/daemonhub.go:82-93 | Succeeds exactly for a registered daemon that does not run; exactly it runs in addition, and registrations stay. |
| ClusterProtocol.DaemonHub.Stop | pkg/managerruntime/daemonhub.go:95-105 | Succeeds exactly for a registered UUID; exactly its daemon no longer runs, and registrations stay. |
| ClusterProtocol.StepKeepsInv | pkg/controllers/multicluster/remotecluster_controller.go:69-190 | Every atomic step of every reconcile, lock and status check keeps the protocol's invariant. |
| ClusterProtocol.Safety | pkg/controllers/multicluster/remotecluster_controller.go:69-190 | In every reachable state a name's latest UUID is locked by it, running daemons are registered under a UUID locked by the cluster they were built for, and no two reconciles work on one UUID. |
| ClusterProtocol.OwnerStep | pkg/controllers/multicluster/uuid_mutex.go:45-76 | A UUID changes hands only in an unlock, which only its owner's reconcile takes, after the daemon is gone. |
| ClusterProtocol.OwnerChangesByUnlock | pkg/controllers/multicluster/uuid_mutex.go:45-76 | Over every run, a UUID that is not unlocked keeps its owner. |
| ClusterProtocol.DrainRun | pkg/controllers/multicluster/remotecluster_controller.go:83-118 | While a reconcile is under way and its cluster locks nothing new, every UUID of the cluster is on its list, whatever else runs. |
| ClusterProtocol.ReconcileComplete | pkg/controllers/multicluster/remotecluster_controller.go:83-142 | A reconcile that reaches its end so leaves the cluster without a UUID, or with exactly the guarded one and its daemon registered. |
| ClusterProtocol.GuardEnd | pkg/controllers/multicluster/remotecluster_controller.go:178-190 | The guarded UUID gets a fresh daemon that does not run yet. |
| ClusterReconcile.TargetStays | pkg/controllers/multicluster/remotecluster_controller.go:69-142 | Whatever comes in between, a reconcile keeps the UUID it set out to keep. |
| ClusterReconcile.LeavesGuarded | pkg/controllers/multicluster/remotecluster_controller.go:83-142 | A reconcile that ends in a step of its own leaves the UUID to keep registered with a fresh daemon of its cluster that does not run, unless the hub refused that step. |
| ClusterReconcile.GuardedInTheEnd | pkg/controllers/multicluster/remotecluster_controller.go:83-142 | The same over every run, from the moment the UUID to keep is read. |
| ClusterReconcile.SoloRun | pkg/controllers/multicluster/remotecluster_controller.go:83-142 | A reconcile left alone ends, complete, after at most four steps for each orphan on its list and five more. |
| ClusterReconcile.WholeReconcile | pkg/controllers/multicluster/remotecluster_controller.go:69-142 | From every state of the protocol, a reconcile of a cluster with its latest UUID or none in its status runs to its end and leaves what `ClusterReconcile.Reconciler.Reconcile` promises. |
| ClusterReconcile.ReconciledDetermines | pkg/controllers/multicluster/remotecluster_controller.go:69-142 | That promise determines the lock and the hub, so the steps of the protocol and the method on the objects end in the same state. |
| ClusterReconcile.Reconciler.KillDaemon | pkg/controllers/multicluster/remotecluster_controller.go:165-176 | Never fails on a valid hub; nothing is left under the UUID, its daemon has stopped and every other one is as before. |
| ClusterReconcile.Reconciler.RecycleOrphans | pkg/controllers/multicluster/remotecluster_controller.go:108-118 | The loop frees exactly the listed UUIDs but the one to keep, daemons first, and leaves all others, and the running daemons of other clusters, alone. |
| ClusterReconcile.Reconciler.GuardDaemon | pkg/controllers/multicluster/remotecluster_controller.go:178-190 | The UUID gets a fresh daemon that does not run; no other registration changes. |
| ClusterReconcile.Reconciler.Reconcile | pkg/controllers/multicluster/remotecluster_controller.go:69-142 | On the objects, undisturbed: gets through exactly if the status names the latest UUID or none. Then the cluster holds that UUID alone, as its latest and with a fresh daemon that does not run, or no UUID; its other UUIDs are free and without a daemon, none of its daemons runs, and holders, registrations and running daemons of other clusters are as before. With an outdated status nothing changes. |
| RulePriority.FindHighestUnusedRulePriority | pkg/daemon/route/utils.go:94-119 | The least unused priority above the node local rule, or none exactly if all are used. |
| RulePriority.CheckIfRuleExist | pkg/daemon/route/utils.go:461-482 | A matching rule exactly if one exists. |
| RulePriority.RuleTable.AppendHighestUnusedPriorityRuleIfNotExist | pkg/daemon/route/utils.go:121-150 | The rule is added once, at the highest unused priority; fails exactly if it is missing and no priority is left. |
| RulePriority.RuleTable.DeleteStale | pkg/daemon/route/route.go:330-367 | Exactly the rules from subnets that are no longer local are deleted, and the order is kept. |
| RulePriority.RuleTable.EnsurePod | pkg/daemon/route/utils.go:195-247 | A pod subnet with a rule keeps it and nothing changes; one without gets a rule into its own table, with mark and mask; no other rule is new. |
| RulePriority.RuleTable.EnsurePods | pkg/daemon/route/route.go:369-392 | The same for all pod subnets; every rule that is new is that of a pod subnet that had none. |
| RulePriority.RuleTable.SyncRules | pkg/daemon/route/route.go:285-395 | A sync that succeeds leaves the basic rules, with their marks; each pod subnet has the rule it had, where that stays, and else one into its own table with the mask of pod subnets. No other rule is new, and exactly those from subnets that are not local are gone. It fails only if blocks or routes cannot be made or no priority is left, and the order holds even then. |
| RulePriority.StepKeeps | pkg/daemon/route/route.go:285-395 | Every step of a sync, and every rule another owner adds in between, keeps the invariant. |
| RulePriority.OrderHolds | pkg/daemon/route/route.go:285-395 | After any number of complete or failed syncs the three basic rules stand in order before every rule from a pod subnet. |
| RulePriority.NextIsBehind | pkg/daemon/route/utils.go:94-119 | The next rule lands behind the basic ones if and only if every priority before them is in use. |
| RulePriority.FirstSync | pkg/daemon/route/route.go:285-300 | A run of a first sync that adds the basic rules one after the other behind the other owner's rule. |
| RulePriority.AfterRemoval | pkg/daemon/route/utils.go:94-119 | From that table without the other owner's rule, a run that breaks the order, for every subnet. |
| RulePriority.RemovalBreaksOrder | pkg/daemon/route/utils.go:94-119 | A run from a table with only the node local rule and a rule of another owner, which ends in order; after that owner removes its rule, a run in which the rule of a new pod subnet lands in front. |
| AddressBytes.IntToIPExact | pkg/utils/cidr.go:87-99 | The bytes made from a number stand for that number in the family if and only if it is in range and, for IPv6, neither four bytes long nor IPv4-mapped. |
| AddressBytes.NextExact | pkg/utils/cidr.go:25-33 | NextIP is the successor in the family exactly for such a successor. |
| AddressBytes.PrevExact | pkg/utils/cidr.go:36-44 | PrevIP is the predecessor in the family exactly for such a predecessor. |
| AddressBytes.PrevOfZero | pkg/utils/cidr.go:36-44 | The predecessor of a family's zero is one. |
| AddressBytes.NextPastEnd | pkg/utils/cidr.go:87-99 | NextIP of a family's last address panics. |
| AddressBytes.PrevUndoesNext | pkg/utils/cidr.go:25-44 | PrevIP undoes NextIP if and only if the address can itself be made from its number. |
| AddressBytes.NextAgrees | pkg/utils/cidr.go:25-33 | On regular addresses the bytes do what the numeric model says. |
| AddressBytes.PrevAgrees | pkg/utils/cidr.go:36-44 | The same for the predecessor, with the quirk at zero. |
| AddressBytes.CmpAgrees | pkg/utils/cidr.go:51-60 | Cmp is the order of the numbers within a family, -2 otherwise, and 0 exactly for the same address in any byte form. |
| AddressBytes.CapacityAgrees | pkg/utils/cidr.go:65-81 | Capacity is the distance of the numbers plus one, 0 across families or for no address. |
| AddressBytes.NormalFormUnique | pkg/utils/cidr.go:105-110 | Two byte forms stand for the same address exactly if they normalize to the same bytes. |
| AddressBytes.LastIP | pkg/utils/ip.go:76-86 | The bytewise loop computes the last address of the block; for IPv4 the last byte is one less, without a borrow. For an IPv4 block held in 16 bytes the result is not an IPv4 address. |
| Addresses.LastUsableInside | pkg/utils/ip.go:76-86 | In a block of two addresses or more that address lies inside. |
| DnsNames.ZeroRunFirst | pkg/utils/ip.go:68-73 | The squashed run is the first longest run of zero groups, as section 4.2 of RFC 5952 asks. |
| DnsNames.UnifyIPv6AddressString | pkg/utils/ip.go:90-102 | The loop builds the separators that stand for the missing groups. |
| DnsNames.NamePieces | pkg/utils/ip.go:68-102 | For every IPv6 address, writing out the squashed groups gives eight pieces, and the name joins them. |
| DnsNames.PieceMeans | pkg/utils/ip.go:68-102 | Each piece is its group, or empty for a zero group. |
| DnsNames.EightGroups | pkg/utils/ip.go:68-102 | The name is the eight groups if and only if the text neither starts nor ends with a squashed run. |
| DnsNames.TextParses | pkg/controllers/utils/format.go:32-38 | The text of every address is read back as that address. |
| DnsNames.RoundTrip | pkg/controllers/utils/format.go:32-38 | The name turns back into the text if and only if the address is IPv4 or its text has no squashed run of three groups or more at an end; else the result is `<nil>`. |
| DnsNames.LoopbackLost | pkg/controllers/utils/format.go:32-38 | The name of ::1 turns into `<nil>`. |
| DnsNames.IPv4NameBytes | pkg/utils/ip.go:68-73 | The name of an IPv4 address, split at its dashes, is its four bytes in decimal, in order. |
| DnsNames.NamesDistinct | pkg/utils/ip.go:68-73 | Two addresses, of either family, have the same name only if they are the same. |
| ArpPacket.DecodeEncode | pkg/daemon/arp/packet.go:133-238 | Unmarshalling what was marshalled gives every field back, with the addresses cut or filled to the length fields. |
| ArpPacket.RoundTrip | pkg/daemon/arp/packet.go:133-238 | A packet survives if and only if its addresses have the lengths its fields say. |
| ArpPacket.WireExact | pkg/daemon/arp/packet.go:133-178 | A string of bytes is the wire form if and only if, byte by byte, it has the two types and the operation in network order at 0, 2 and 6, the lengths at 4 and 5, and then the sender's hardware address and IP and the target's, cut or filled to those lengths. |
| ArpPacket.DecodeOnWire | pkg/daemon/arp/packet.go:181-238 | Every field of a parsed packet comes from the same place. |
| ArpPacket.EncodeDecode | pkg/daemon/arp/packet.go:133-238 | Marshalling any parsed buffer gives exactly its leading bytes. |
| ArpPacket.EncodeInjective | pkg/daemon/arp/packet.go:133-178 | Packets with honest length fields and the same wire form are the same. |
| ArpPacket.Copy | pkg/daemon/arp/packet.go:166-175 | As many bytes as both sides have are copied; all others stay. |
| ArpPacket.PacketObject.MarshalBinary | pkg/daemon/arp/packet.go:133-178 | The buffer has every field at its place in the packet format of RFC 826, or the code panics, exactly beyond 255 bytes. |
| ArpPacket.PacketObject.UnmarshalBinary | pkg/daemon/arp/packet.go:181-238 | Succeeds exactly on a buffer long enough for its length fields, and takes every field from its place; otherwise the fixed part may have been taken over, and the addresses stay. |
| ArpPacket.NewPacketSurvives | pkg/daemon/arp/packet.go:88-128 | A new packet is marshalled and unmarshalled to itself if and only if both hardware addresses have the same length of at most 119 bytes. |
| ArpPacket.NewPacketMade | pkg/daemon/arp/packet.go:88-128 | A packet is made exactly for IPv4 addresses and hardware addresses of at least six bytes that have the same length or a broadcast target. |
| ArpPacket.NewPacketOnWire | pkg/daemon/arp/packet.go:88-178 | From the caller to the wire: Ethernet, IPv4 and the operation asked for, then the source as the sender and the destination as the target. |

## Left out

- IpamRuns.RunKeeps: the manager's map of networks and its lock are a value that one operation at a time replaces; the objects of one network are updated in place in `IpamObjects`, concurrent readers are not modelled.
- IPRanges.FindTheFirstLargestCidr: IPv6 starts up to 2^48 are not covered; there `NextIP` leaves the family, as `AddressBytes.NextExact` states.
- IPRanges.IPRange.TryAddIP: the same bound on IPv6 starts, and no range that ends at the last address of its family, where `NextIP` panics.
- IPRanges.IPRange.SplitIPRangeToIPBlocks: the same bound on IPv6 starts.
- ExcludeBlocks.CollectGaps: only for blocks that end before the last address of their family, IPv6 blocks above 2^48, and blocks from 0.0.0.0 in which no range starts there; elsewhere `NextIP` and `PrevIP` panic or leave the family.
- ExcludeBlocks.AbsorbIP: the same bounds on addresses, and 0.0.0.1 only where no range starts at 0.0.0.0.
- ExcludeBlocks.FindSubnetExcludeIPBlocks: the same bounds on the block, the gateway and the excluded addresses; `Untangled` is shown to be enough for a block from 0.0.0.0, not to be needed.
- OverlayRoutes.FindExcludeIPBlockMap: the same bounds on every subnet; so too `OverlayRoutes.Manager.SyncToOverlay`.
- ExcludeBlocks.SortByStart: models the sort as an insertion sort on values; that `sort.Slice` reorders the caller's list is not captured.
- IpamObjects.SubnetObject.ListAvailable: the same bounds on the first and last address.
- IpamObjects.SubnetObject.Sync: the same bounds on addresses; addresses stand for their canonical text, and a caller's other spelling of an address is not modelled.
- AddressRanges.Intersect: the same bounds on both blocks; so too `AddressRanges.CapacityExact` and `RangeSubnets.PrepareRange`.
- IpamObjects.SubnetObject.AllocateNext: returns the record by value; that callers and the allocator share it is not captured.
- IPSetRestore.RestoreCorrect: the kernel refuses no entry, sets do not refer to each other, and temporary names do not collide; the text of commands and of saved sets is not modelled.
- OverlayRoutes.Manager.SyncToOverlay: states when a sync succeeds and what it leaves then; the table that a failed one leaves half done is not described.
- RulePriority.OrderHolds: other owners add no rule that passes for one of hybridnet's and no second node local rule; rules of an older release, and their conversion, are not modelled.
- RulePriority.RuleTable.SyncRules: the empty route table for a subnet, and whether its routes and the shared ones can be made, are parameters.
- ClusterReconcile.Reconciler.Reconcile: the API server and the building of a daemon are one parameter; the queue of status checks is not modelled.
- ClusterProtocol.Safety: a daemon is an object with a running flag; the goroutine it starts, and its lock that stays taken when it is run twice, are not modelled. The status of the cluster object is any value.
- ArpPacket.PacketObject.UnmarshalBinary: the address fields are values; that they share one buffer is not captured.
- DnsNames.RoundTrip: embedded IPv4 text within an IPv6 name is not read, since no address gets such a name.
- From-pod-subnet and overlay-mark route tables, VLAN and BGP routes: further tables built by the same steps as the to-overlay table.
- Kubernetes clients, reconcilers, webhooks and informers, apart from the remote-cluster reconciler: plumbing around the modelled parts.
- netlink, iptables, sysctl, sockets, neighbour and BGP managers: calls into the system, which appear as tables and sets only.
- Pod and node address caches, MAC and hash naming, metrics and flags: would only add easy members.
