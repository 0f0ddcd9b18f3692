# Verification of the SDN controller's state machines and flow compilers

A Dafny model of the parts of the OpenShift SDN controller that keep state or
compile it into OpenFlow tables, with proofs of what they promise.
`dafny verify dfyconfig.toml` checks everything.

- **Egress IPs.** `EgressTracker` is the tracker that relates nodes, namespaces
  and egress IPs, marks what changed and re-synchronises only that.  Its value is
  a ghost `State` (`EgressState`); `EgressTables` ties the tables to that value,
  `EgressOps` says what each edit can break, `EgressSync` how synchronising
  mends it, and `Watcher` is the protocol of the calls it makes.  `EgressRuns`
  holds the theorems about whole runs.  `EgressAlloc` is the automatic
  allocator.  `EgressNode` is the node's side: packet marks, table 100 and the
  set of monitored nodes.
- **Host subnets.** `SubnetBits` is the bit-rotated numbering of subnets,
  `SubnetAllocator` one allocator and the validation of cluster networks,
  `SubnetMaster` the allocators together.  `Cidr` holds IPv4 prefixes (section
  3.1 of RFC 4632).
- **Policies.** `OpenFlow` gives a flow table its meaning (section 5.3 of the
  OpenFlow Switch Specification 1.3).  `NetworkPolicy` compiles NetworkPolicies to
  table 80, `EgressPolicy` EgressNetworkPolicies to table 101, and `Proxy` is the
  service proxy's endpoint filter with the same firewall rules.  `PolicyNode` is
  the node that keeps policies under VNIDs and makes table 101 from them,
  `PolicyRuns` says what it has after whole runs, and `ProxyBridge` compares it
  with the proxy.
- **VNIDs.** `NetID` and `Vnids` hand out 24-bit network IDs (section 5 of
  RFC 7348) that namespaces can share.
- **Liveness.** `VxlanMonitor` decides from packet counters when an egress node
  is down.
- **Flow text.** `FlowText` parses and prints flow descriptions, `FlowRows` says
  which rows of fields and actions are accepted for adding, as a filter and as a
  dump, and what they give, `FlowSplit` says when a list of actions is split where
  it should be, and `FlowStored` which stored flows survive being dumped and read
  back.

Loops over Go maps visit keys in an arbitrary order (`:|` from the set of keys
still to do), so every result holds for every iteration order.

Some properties fail for some inputs.  For each there is a member with such an
input and a member with the exact condition.

- A release can stop the monitoring of a node that still hosts an address:
  `EgressNode.MonitoringCanStopEarly` and, for a run of the tracker,
  `EgressRuns.StopsEarly`; `EgressNode.ReleaseKeepsMonitoring`.
- Proxy and bridge can disagree about a namespace with several policies:
  `ProxyBridge.ProxyCanDisagree`, `ProxyBridge.ProxyAgreesWithBridge`.
- The proxy never takes over a policy that came before its namespace had a VNID of
  its own: `ProxyBridge.LateVNIDDisagrees`, `ProxyBridge.FirewallIsUpToDateIff`.
- A change of VNID takes only the first policy of a namespace along, after which
  proxy and bridge can disagree: `ProxyBridge.TwoPoliciesDisagree`,
  `PolicyRuns.MoveLeavesNoneIff` and `PolicyRuns.NodeKeepsIff` for what the node
  lists, `ProxyBridge.SplitAgreesIff` for the disagreement.
- The proxy keeps the firewall of a namespace that becomes global:
  `ProxyBridge.GlobalDisagrees`, `ProxyBridge.GlobalAgreesIff`.
- The proxy knows nothing of shared VNIDs: `ProxyBridge.SharedDisagrees`,
  `ProxyBridge.RunsAgreeIff`.
- Table 101 is not made anew when a namespace without policies joins or leaves a
  VNID: `PolicyRuns.JoinerIsUnnoticed`, `PolicyRuns.TableIsCurrentIff`.
- Adding endpoints that are already known misleads the handler below the proxy:
  `Proxy.AddTwice`, `Proxy.OsdnProxy.OnEndpointsAdd`.
- Actions can be cut inside brackets, and unbalanced ones accepted:
  `FlowSplit.CutInsideBrackets` and `FlowSplit.UnbalancedIsAccepted`,
  `FlowSplit.SplitIsProperIff`.
- A filter with a priority is accepted, although the parser means to refuse one:
  `FlowRows.PriorityIsAccepted`, `FlowRows.FilterReads`.
- Marking a subnet of another size lets a subnet inside it be issued:
  `SubnetMaster.WrongSizeOverlaps`, `SubnetMaster.MarkAllocatedNetwork`.
- A namespace that joins itself frees the ID it keeps: `Vnids.JoinItself`,
  `Vnids.MasterVNIDMap.UpdateNetID`, which also shows that isolating the only
  global namespace leaves it global.
- A range whose end wraps around is accepted: `NetID.WrappingRangeIsAccepted`,
  `NetID.AcceptedIsProper`.

Inputs are taken as follows.  A HostSubnet has a nonempty HostIP, and requested
egress IPs are neither "" nor "dropped".  Tracked nodes have unique nonempty names
when addresses are allocated.  Each namespace has one VNID when NetworkPolicies
are compiled.  The UID of an EgressNetworkPolicy belongs to one namespace.
Whether a CIDR contains an egress IP is a parameter of the allocator, whether an
API create or delete succeeds is a parameter of the VNID operations, and the
packet counters are a parameter of the monitor.

## Model

| member | source | states |
|---|---|---|
| EgressRuns.Replay | pkg/network/common/egressip.go:180-460 | After any run of HostSubnet, NetNamespace and node-offline events, for any order of visiting maps: the tracker holds exactly the requests and offers of the last events, the node table, the index by node IP and the offline flags are those the events leave, every VNID has its declared route, the addresses of the last NetNamespace event are assigned iff they should be, each event asks for an allocation iff a node with CIDRs is left and the event changes CIDRs or a node that has some, moves a held address to another node IP, or leaves an address it concerns without a holder, and the watcher saw only calls the protocol allows |
| EgressRuns.RouteIsDeclared | pkg/network/common/egressip.go:345-436 | In every state between operations, the last route announced for a VNID is the declared one: normal without request, dropped if a requested address is contested, else through the first usable requested address on its one host, else dropped, although only marked namespaces are recomputed |
| EgressRuns.AssignedIsSingle | pkg/network/common/egressip.go:326-392 | An assigned address has exactly one host and one namespace, is assigned to that host's current IP, and is held at the watcher for that VNID on that node |
| EgressRuns.UnassignedIsFree | pkg/network/common/egressip.go:378-392 | An unassigned or unknown address is not held at the watcher |
| EgressRuns.OneAddressPerNode | pkg/network/common/egressip.go:326-343 | Two assigned addresses of one namespace never share a node object |
| EgressRuns.SingleAddressAssigned | pkg/network/common/egressip.go:326-343 | The only address of a namespace is assigned iff it has one node and one namespace |
| EgressRuns.IndexesAreExact | pkg/network/common/egressip.go:98-156 | Who stands in an address's lists is who requests it, and the tracked addresses are the requested ones |
| EgressRuns.IndexIsExact | pkg/network/common/egressip.go:193-243 | When no two HostSubnets ever have the same node IP, and each is withdrawn under the IP it has, the index by node IP holds exactly the nodes on offer, each under its own IP |
| EgressRuns.PacketIsRoutedAsDeclared | pkg/network/node/ovscontroller.go:748-776 | In every state between operations, the table for the announced routes sends an IP packet as its VNID's declared route says |
| EgressRuns.Drive | pkg/network/node/egressip.go:86-130 | End to end: a tracker after any run of events and a node watcher that was given its calls: the watcher's own table 100 sends every IP packet that is not VXLAN or DNS as the declared route of its VNID says, and each flow that sets a mark sets the mark of the VNID it tests for |
| Watcher.ReleaseFollowsClaim | pkg/network/common/egressip.go:378-392 | In an allowed trace each release is the first call for its address after a claim of it on the same node |
| Watcher.ClaimsAreSeparated | pkg/network/common/egressip.go:378-392 | Between two claims of an address there is a release of it |
| Watcher.ViaFollowsClaim | pkg/network/common/egressip.go:425-436 | A route is announced only through an address whose last claim named the same VNID and node and which was not released since |
| Watcher.HeldByLastClaim | pkg/network/common/egressip.go:378-392 | What a listener believes about an address is the last claim of it |
| EgressTracker.EgressIPTracker.constructor | pkg/network/common/egressip.go:79-91 | A new tracker is valid and empty |
| EgressTracker.EgressIPTracker.EgressIPChanged | pkg/network/common/egressip.go:107-112 | Marks the address and all its namespaces |
| EgressTracker.EgressIPTracker.AddNodeEgressIP | pkg/network/common/egressip.go:98-119 | Enters the node in the address's list, creating the entry if need be, and marks; nothing else changes |
| EgressTracker.EgressIPTracker.DeleteNodeEgressIP | pkg/network/common/egressip.go:121-134 | Takes exactly that node out of the list and marks; without the node or the entry nothing changes |
| EgressTracker.EgressIPTracker.AddNamespaceEgressIP | pkg/network/common/egressip.go:136-141 | As AddNodeEgressIP, for a namespace |
| EgressTracker.EgressIPTracker.DeleteNamespaceEgressIP | pkg/network/common/egressip.go:143-156 | As DeleteNodeEgressIP, for a namespace |
| EgressTracker.EgressIPTracker.EgressIPActive | pkg/network/common/egressip.go:326-343 | True iff the address has one node, one namespace, and no other address of that namespace is alone on the same node |
| EgressTracker.EgressIPTracker.SyncEgressNodeState | pkg/network/common/egressip.go:378-392 | Claims, releases or leaves the address so that assignment and watcher agree |
| EgressTracker.EgressIPTracker.SyncEgressNamespaceState | pkg/network/common/egressip.go:394-436 | Announces exactly the declared choice, and nothing when it is already in force |
| EgressTracker.EgressIPTracker.SyncEgressIPs | pkg/network/common/egressip.go:345-376 | Turns any state with the right marks into a stable one, claiming and releasing only marked addresses; every marked address ends assigned iff it has one host, one namespace and no sibling alone on that host; an allocation is asked for, as the last call, iff a node has CIDRs and either one was due or a marked address is left without a node, and none is due afterwards |
| EgressTracker.EgressIPTracker.UpdateNetNamespaceEgress | pkg/network/common/egressip.go:282-318 | Keeps validity; the VNID requests the given list, or is forgotten; every address of its old and its new list ends assigned iff it has one host, one namespace and no sibling alone on that host, and no other address is claimed or released; an allocation is asked for iff a node has CIDRs and one was due or such an address is left without a node |
| EgressTracker.EgressIPTracker.UpdateHostSubnetEgress | pkg/network/common/egressip.go:180-261 | Keeps validity, including across a change of node IP; the UID offers the given addresses and CIDRs, or is forgotten, and nothing else of the record changes; every address that was added, taken away or moved ends assigned iff it should be; an allocation is asked for iff a node with CIDRs is left and the CIDRs changed, an address moved, one was due, or a changed address is left without a node |
| EgressTracker.EgressIPTracker.Renumber | pkg/network/common/egressip.go:228-248 | Moves a node to a new IP: its assigned addresses are released under the old IP and become assignable under the new one |
| EgressTracker.EgressIPTracker.SetNodeOffline | pkg/network/common/egressip.go:438-460 | Keeps validity; only that node's offline flag changes; its addresses end assigned iff they should be; an allocation is asked for iff a node has CIDRs and that node has some, one was due, or one of its addresses is left without a node; for an unknown node nothing happens |
| EgressSync.NodeSyncKeepsDue | pkg/network/common/egressip.go:345-392 | Synchronising one marked address keeps every promise about the others, for any order |
| EgressSync.NsSyncKeepsAnnouncing | pkg/network/common/egressip.go:359-436 | Announcing one marked namespace keeps the others right |
| EgressSync.DropIPKeepsSynced | pkg/network/common/egressip.go:364-368 | Forgetting an address nobody asks for keeps everything in order |
| EgressSync.FirstUsableIsFirst | pkg/network/common/egressip.go:404-424 | The recursive search is the first usable address of the list |
| EgressOps.NodeAddedKeepsPending | pkg/network/common/egressip.go:114-119 | Entering a node breaks only what the new marks cover |
| EgressOps.NodeRemovedKeepsPending | pkg/network/common/egressip.go:121-134 | Removing a node breaks only what the new marks cover |
| EgressOps.SpaceAddedKeepsPending | pkg/network/common/egressip.go:136-141 | Entering a namespace breaks only what the new marks cover |
| EgressOps.SpaceRemovedKeepsPending | pkg/network/common/egressip.go:143-156 | Removing a namespace breaks only what the new marks cover |
| EgressOps.RenumberStable | pkg/network/common/egressip.go:228-243 | A node without assigned addresses can change its IP |
| EgressOps.OfflineIsPending | pkg/network/common/egressip.go:438-460 | Going offline breaks only the routes of namespaces that use the node |
| EgressOps.RequestIsPending | pkg/network/common/egressip.go:282-318 | A new request list breaks only that namespace's route |
| EgressAlloc.FindEgressIPAllocation | pkg/network/common/egressip.go:497-523 | Returns a least loaded online node with a covering CIDR, none iff there is none, and whether there was a choice |
| EgressAlloc.MakeEmptyAllocation | pkg/network/common/egressip.go:525-545 | Marks exactly the addresses that are unused, doubly claimed, or one of several of their namespace |
| EgressAlloc.AllocateExistingEgressIPs | pkg/network/common/egressip.go:547-581 | Keeps exactly the assigned addresses their host can still carry, each on its host, and reports iff one had to go |
| EgressAlloc.AllocateSingles | pkg/network/common/egressip.go:584-594 | Places exactly the unmarked addresses with one candidate |
| EgressAlloc.AllocateBalanced | pkg/network/common/egressip.go:595-605 | Places every unmarked address that has a candidate, greedily |
| EgressAlloc.AllocateNewEgressIPs | pkg/network/common/egressip.go:583-605 | Both passes: each address at most once, only on a node that can host it, every placeable one placed; for the last address put on a node every other candidate ends with at least that load minus one |
| EgressAlloc.EvenLoads | pkg/network/common/egressip.go:583-605 | From an empty allocation, addresses with the same candidates load any two of them equally up to one |
| EgressAlloc.Reallocate | pkg/network/common/egressip.go:607-653 | Lists each address at most once, only eligible ones, only on online covering nodes, an assigned one only on its host, with an entry for every node with CIDRs; everything placeable is placed unless set aside; addresses are set aside iff nothing was taken off and some node holds less than half its fresh share, and they are then exactly the fresh shares of those nodes |
| EgressAlloc.PartialApplicationIsSafe | pkg/network/common/egressip.go:525-653 | Writing an allocation to any subset of the nodes never gives an address a second host: it keeps or loses hosts, or had none and gets one |
| EgressAlloc.StableFleet | pkg/network/common/egressip.go:525-581 | The tables of a valid tracker meet what the allocator relies on |
| EgressTracker.EgressIPTracker.ReallocateEgressIPs | pkg/network/common/egressip.go:607-653 | All of the above for the tracker itself, with the first and the fresh allocation it compares: unless the round rebalances, everything placeable is placed, whatever was asked before; it rebalances only when every assigned address could be carried on, and exactly then asks for another round; nothing else of the tracker changes |
| EgressNode.MarkAvoidsBit | pkg/network/node/egressip.go:74-84 | For every 24-bit VNID the mark is nonzero, with or without a masquerade bit, and lacks the bit |
| EgressNode.MarksDiffer | pkg/network/node/egressip.go:74-84 | Different 24-bit VNIDs have different marks |
| EgressNode.MarkShape | pkg/network/node/egressip.go:74-84 | The exact mark: the VNID itself, with bit 24 set instead of the masquerade bit if the VNID has that bit, and 0xff000000 without the masquerade bit for VNID 0 |
| EgressNode.EgressIPWatcher.constructor | pkg/network/node/egressip.go:42-55 | A new watcher has table 100 with its fixed flows |
| EgressNode.EgressIPWatcher.ClaimEgressIP | pkg/network/node/egressip.go:86-96 | Keeps marks, flows and monitored nodes a function of the calls so far |
| EgressNode.EgressIPWatcher.ReleaseEgressIP | pkg/network/node/egressip.go:98-108 | Same for a release |
| EgressNode.EgressIPWatcher.SetNamespaceEgressNormal | pkg/network/node/ovscontroller.go:748-752 | Same; only the VNID's flow goes |
| EgressNode.EgressIPWatcher.SetNamespaceEgressDropped | pkg/network/node/ovscontroller.go:754-759 | Same; the VNID's flow is replaced by a drop |
| EgressNode.EgressIPWatcher.SetNamespaceEgressViaEgressIP | pkg/network/node/ovscontroller.go:761-776 | Same; the VNID's flow marks with the VNID's own mark, or tunnels |
| EgressNode.Follow | pkg/network/node/egressip.go:86-130 | After any allowed trace, marks and table 100 are what the trace says |
| EgressNode.PacketFollowsRoute | pkg/network/node/ovscontroller.go:206-210 | Every IP packet that is not VXLAN or DNS leaves table 100 as the route of its VNID says: out of the host with no request, dropped, out of the host with the mark of its VNID when the node is local, or through the tunnel to the node |
| EgressNode.SpecialExit | pkg/network/node/ovscontroller.go:206-208 | VXLAN packets are dropped and DNS packets to the node go to the host, whatever the routes |
| EgressNode.MonitoringIsExact | pkg/network/node/egressip.go:93-107 | Only hosting nodes are monitored; a hosting node is missed iff the last call about it was a release |
| EgressNode.ReleaseKeepsMonitoring | pkg/network/node/egressip.go:98-108 | After a release the node is monitored rightly iff no other address is held there |
| EgressNode.MonitoringCanStopEarly | pkg/network/node/egressip.go:98-108 | Two addresses on a node, one released: the node still hosts and is not monitored |
| EgressNode.DroppedIsReleased | pkg/network/node/egressip.go:86-108 | When an address held on a node is dropped by calls about that address alone, the last call about the node is a release |
| EgressRuns.Withdraw | pkg/network/common/egressip.go:282-318 | In every tracker state: a namespace gives up its only address while its node holds another one; the node still holds that, and the last call about it is a release |
| EgressRuns.StopsEarly | pkg/network/node/egressip.go:86-108 | A run of events after which the tracker holds an address on a remote node that the watcher no longer monitors |
| SubnetBits.AddressIsPlaced | pkg/network/master/subnet_allocator.go:101-112 | The 32-bit shift and mask formula adds the rotated subnet number, in subnet sizes, to the network address |
| SubnetBits.RotateBack | pkg/network/master/subnet_allocator.go:39-66 | The rotation of subnet numbers is undone by the opposite rotation |
| SubnetBits.NumberIsSubnet | pkg/network/master/subnet_allocator.go:101-112 | Every number is an aligned host-size block inside the network |
| SubnetBits.SubnetHasNumber | pkg/network/master/subnet_allocator.go:101-112 | Every aligned host-size block inside the network has a number |
| SubnetBits.NumbersDiffer | pkg/network/master/subnet_allocator.go:101-112 | Different numbers are different blocks |
| SubnetBits.FirstNumbersShareNoOctet | pkg/network/master/subnet_allocator.go:39-66 | The exact address of each subnet number: when an octet is shared by network and subnet bits the low bits of the number go above the octet boundary and the high bits below it, so that exactly the first 2^rightShift numbers have zero subnet bits in the shared octet; else the numbers are in order |
| SubnetAllocator.NumFits | pkg/network/master/subnet_allocator.go:105-109 | The cyclic index does not overflow 32 bits |
| SubnetAllocator.Allocator.AllocateNetwork | pkg/network/master/subnet_allocator.go:93-122 | Returns a free block such that every number from `next` on, wrapping at the end, up to its number is live; none iff every block of the network is live |
| SubnetAllocator.Allocator.MarkAllocatedNetwork | pkg/network/master/subnet_allocator.go:80-91 | Adds the block iff its address is in the network |
| SubnetAllocator.Allocator.ReleaseNetwork | pkg/network/master/subnet_allocator.go:124-139 | Frees the block iff it was live, and fails otherwise |
| Cidr.OverlapIsShared | pkg/network/common/validation.go:166-176 | The overlap test is true exactly when the two blocks share an address |
| SubnetAllocator.ValidateClusterNetworks | pkg/network/common/validation.go:86-110 | No error iff every network parses, has a usable host length, shares no address with the service network, and no two share one |
| SubnetMaster.InitSubnetAllocators | pkg/network/master/subnet_allocator.go:153-161 | Validated networks get allocators ready to serve |
| SubnetMaster.GetSubnetAllocator | pkg/network/master/subnet_allocator.go:218-234 | Finds a network that contains the address, if any does |
| SubnetMaster.AllocateNetwork | pkg/network/master/subnet_allocator.go:188-205 | The new subnet is of the first network that has a free block and shares no address with any live one; fails only when every block of every network is live |
| SubnetMaster.ReleaseNetwork | pkg/network/master/subnet_allocator.go:207-216 | Reaches the allocator that issued the subnet; succeeds iff the subnet is live |
| SubnetMaster.MarkAllocatedNetwork | pkg/network/master/subnet_allocator.go:177-186 | Makes any subnet live in exactly the networks that contain its address and fails iff none does; the allocators stay sound iff it has the size configured there, and iff no live subnet shares an address with another that is live or can be issued |
| SubnetMaster.WrongSizeMeets | pkg/network/master/subnet_allocator.go:80-122 | Every block of another size in a network shares an address with a different subnet that the network can issue |
| SubnetMaster.WrongSizeOverlaps | pkg/network/master/subnet_allocator.go:80-122 | A /23 marked where hosts get a /24: the next subnet issued lies inside the marked one |
| SubnetMaster.LiveAreDisjoint | pkg/network/master/subnet_allocator.go:188-205 | Live subnets are pairwise disjoint |
| SubnetMaster.Serve | pkg/network/master/subnet_allocator.go:153-234 | After any run of marks of configured size, allocations and releases: each network's live set is what was marked or issued and not released since; each issued subnet was free, none was refused while a block of any network was free, a release succeeds iff the subnet was live; and live subnets share no address |
| OpenFlow.FlowDecides | pkg/network/node/ovscontroller.go:197-214 | A flow decides when every other match ranks below it or agrees |
| NetworkPolicy.SelectPods | pkg/network/node/networkpolicy.go:360-374 | The addresses of exactly the selected pods of the namespace |
| NetworkPolicy.SelectNamespaces | pkg/network/node/networkpolicy.go:342-358 | Matches exactly the packets from selected namespaces |
| NetworkPolicy.SelectPodsFromNamespaces | pkg/network/node/networkpolicy.go:306-340 | Matches exactly the packets from selected pods of selected namespaces |
| NetworkPolicy.ParsePeer | pkg/network/node/networkpolicy.go:440-464 | Matches exactly the packets from the peer; an IP block matches nothing |
| NetworkPolicy.ParsePorts | pkg/network/node/networkpolicy.go:407-435 | Succeeds iff every port is a number in range with a known protocol, and then matches exactly packets to one of them |
| NetworkPolicy.Cross | pkg/network/node/networkpolicy.go:465-471 | The combined flows match iff destination, peer and port do |
| NetworkPolicy.ParseNetworkPolicy | pkg/network/node/networkpolicy.go:376-477 | Fails iff some port is unsupported; else selects what the policy isolates and matches what it allows |
| NetworkPolicy.SyncNamespaceFlows | pkg/network/node/networkpolicy.go:232-275 | Replaces the namespace's flows by those of its policies, and no others |
| NetworkPolicy.SyncedVerdict | pkg/network/node/networkpolicy.go:232-275 | For packets that are neither replies nor from the gateway, the table accepts iff some policy's flow matches or no policy covers the destination; drops when not in use |
| NetworkPolicy.UpdateNetworkPolicy | pkg/network/node/networkpolicy.go:479-494 | A policy that does not parse isolates everything and allows nothing |
| NetworkPolicy.CompileNamespace | pkg/network/node/networkpolicy.go:232-275 | Compilation preserves meaning: accept iff no policy selects the destination or a selecting policy has a rule matching peer and port; packets from the gateway and replies are always accepted |
| NetworkPolicy.GatewayAndReplies | pkg/network/node/networkpolicy.go:98 | Whatever the policies, IP packets from the gateway and replies are accepted |
| EgressPolicy.UpdateEgressNetworkPolicyRules | pkg/network/node/ovscontroller.go:477-542 | Replaces the VNID's flows as a function of the policies alone; VNID 0 is left alone |
| EgressPolicy.UpdatedVerdict | pkg/network/node/ovscontroller.go:477-542 | After an update the table decides each destination as the first matching rule, default allow; all denied with several policies or sharers; other VNIDs' flows stay |
| EgressPolicy.FirstMatchIsFirst | pkg/network/node/ovscontroller.go:501-533 | The recursive verdict is that of the first matching rule |
| EgressPolicy.RuleHitsBlock | pkg/network/node/ovscontroller.go:521-530 | A rule applies to exactly the addresses of its block, and one for 0.0.0.0/32 to all |
| Proxy.ScanRules | pkg/network/proxy/proxy.go:264-268 | Blocks iff the first rule whose stored selector contains the address denies |
| Proxy.FirewallBlocksIP | pkg/network/proxy/proxy.go:257-271 | Blocks nothing without a policy, everything with several, else by the first stored rule that contains the address |
| ProxyBridge.CorrectionKeepsVerdict | pkg/network/proxy/proxy.go:184-200 | Storing 0.0.0.0/32 as 0.0.0.0/0 makes the scan block exactly what the rules as written deny first |
| ProxyBridge.ProxyAgreesWithBridge | pkg/network/proxy/proxy.go:184-271 | For the same policies, proxy and table 101 treat a destination alike iff there is at most one policy, or two with rules, or the only one with rules denies it |
| ProxyBridge.FirewallIsUpToDateIff | pkg/network/proxy/proxy.go:166-182 | After any run the proxy has exactly the nonempty last policies of a namespace iff every policy's last event gave the rules of its last event that came while the namespace had a known VNID other than 0 |
| ProxyBridge.AllTakenIsUpToDate | pkg/network/proxy/proxy.go:166-230 | In particular when every policy event came then |
| PolicyNode.OsdnNode.constructor | pkg/network/node/ovscontroller.go:212-214 | A new node has no policies and a table that lets everything out |
| PolicyNode.OsdnNode.UpdateEgressNetworkPolicyRules | pkg/network/node/sdn_controller.go:203-209 | Makes the flows of one VNID anew from its list and the number of its namespaces; the table goes on deciding every packet as what its flows were made from says |
| PolicyNode.OsdnNode.HandleEgressNetworkPolicy | pkg/network/node/egress_network_policy.go:67-93 | Replaces or drops the policy in the list of the namespace's VNID, and remakes its flows; an unknown namespace is not served |
| PolicyNode.OsdnNode.UpdateEgressNetworkPolicyVNID | pkg/network/node/egress_network_policy.go:95-115 | Moves the first policy of the namespace to the end of the new VNID's list and remakes the flows of both, or does nothing |
| PolicyNode.OsdnNode.HandleAddOrUpdateNetNamespace | pkg/network/node/vnids.go:201-219 | Records the VNID and moves a policy if it is another |
| PolicyNode.OsdnNode.HandleDeleteNetNamespace | pkg/network/node/vnids.go:221-228 | Forgets the VNID and moves a policy to VNID 0 |
| PolicyNode.Enforce | pkg/network/node/egress_network_policy.go:48-115 | After any run of policy and VNID events the node has the lists of the run, and table 101 decides every IPv4 packet as what its flows were last made from says |
| PolicyRuns.EntriesAreGiven | pkg/network/node/egress_network_policy.go:67-93 | After any run every listed policy has rules and was given by an event |
| PolicyRuns.MoveLeavesNoneIff | pkg/network/node/egress_network_policy.go:95-115 | A change of VNID leaves no policy of the namespace behind iff it had at most one listed |
| PolicyRuns.SmallMovesHouse | pkg/network/node/egress_network_policy.go:67-115 | When no change of a namespace's VNID comes while two of its policies have rules, the node lists exactly those with rules under its VNID, each once, and none elsewhere |
| PolicyRuns.NodeKeepsIff | pkg/network/node/egress_network_policy.go:67-115 | Over every run: the node lists exactly the namespace's policies with rules under its VNID at every moment iff no change of its VNID comes while two of them have rules |
| PolicyRuns.BadMoveSplits | pkg/network/node/egress_network_policy.go:95-115 | The first such change takes one policy along and leaves all others under the old VNID |
| PolicyRuns.TableIsCurrentIff | pkg/network/node/sdn_controller.go:203-209 | After any run table 101 treats a destination as the VNID's policies and present sharers call for iff there are no or several policies, or the only one denies it, or the VNID is shared exactly if it was when its flows were last made |
| PolicyRuns.JoinerIsUnnoticed | pkg/network/node/multitenant.go:96-100 | A namespace without policies joins a VNID with one: the table still follows the policy, instead of dropping everything |
| PolicyRuns.GlobalIsOpen | pkg/network/node/ovscontroller.go:483-484 | After any run nothing of VNID 0 is dropped |
| ProxyBridge.RunsAgreeIff | pkg/network/proxy/proxy.go:166-271 | After any orderly run (policy events only while the VNID is known and not 0, no change of VNID while two policies have rules), with any sharing of VNIDs, proxy and table 101 treat a destination alike iff nothing is listed under the VNID, or only the namespace's own and the VNID was not shared when the flows were made, or the bridge drops everything and the own policies block the destination, or it follows another namespace's one policy and that allows it |
| ProxyBridge.AloneAgrees | pkg/network/proxy/proxy.go:166-271 | In particular for every destination when nobody else ever has the VNID, across changes of VNID |
| ProxyBridge.Guard | pkg/network/proxy/proxy.go:166-271 | The node's table itself drops exactly what the proxy blocks, for all such namespaces at once |
| ProxyBridge.SplitAgreesIff | pkg/network/node/egress_network_policy.go:95-115 | After the first change of VNID with several policies with rules the proxy blocks everything, the node has one of them under the new VNID and the rest under the old, and the two agree on a destination iff that one denies it |
| ProxyBridge.TwoPoliciesDisagree | pkg/network/node/egress_network_policy.go:95-115 | Two allowing policies, then another VNID: the proxy blocks everything, the bridge lets everything out |
| ProxyBridge.GlobalAgreesIff | pkg/network/proxy/proxy.go:166-182 | When the namespace has become global or unknown, the two agree on a destination iff its policies do not block it |
| ProxyBridge.GlobalDisagrees | pkg/network/proxy/proxy.go:166-182 | A denying policy, then VNID 0: the bridge opens up, the proxy goes on blocking |
| ProxyBridge.SharedDisagrees | pkg/network/node/ovscontroller.go:485-491 | Two namespaces on one VNID, one with an allowing policy: the bridge drops everything, the proxy lets it through |
| ProxyBridge.LateVNIDDisagrees | pkg/network/node/egress_network_policy.go:95-115 | A denying policy that comes while the namespace is global, which then gets a VNID: the node moves the policy and drops everything, the proxy blocks nothing |
| ProxyBridge.ProxyCanDisagree | pkg/network/node/egress_network_policy.go:28-41 | An empty and an allowing policy, as the start-up listing can leave them: the bridge drops, the proxy lets through |
| Proxy.CheckEndpoints | pkg/network/proxy/proxy.go:273-287 | Blocked iff some address outside the cluster and service networks is refused by the policies of the namespace |
| Proxy.OsdnProxy.constructor | pkg/network/proxy/proxy.go:68-79 | A new proxy knows nothing and has told nothing |
| Proxy.OsdnProxy.HandleAddOrUpdateNetNamespace | pkg/network/proxy/proxy.go:148-155 | Records the VNID |
| Proxy.OsdnProxy.HandleDeleteNetNamespace | pkg/network/proxy/proxy.go:157-164 | Forgets the VNID |
| Proxy.OsdnProxy.OnEndpointsAdd | pkg/network/proxy/proxy.go:289-298 | The filter stays right iff the handler did not already hold the endpoints |
| Proxy.OsdnProxy.OnEndpointsUpdate | pkg/network/proxy/proxy.go:300-322 | The filter stays right, also for unknown endpoints |
| Proxy.OsdnProxy.OnEndpointsDelete | pkg/network/proxy/proxy.go:324-337 | The filter stays right, also for unknown endpoints |
| Proxy.OsdnProxy.UpdateEgressNetworkPolicy | pkg/network/proxy/proxy.go:176-255 | The filter stays right; a policy is active iff it is the namespace's only nonempty one; global namespaces are ignored |
| Proxy.Serve | pkg/network/proxy/proxy.go:176-337 | After any run the handler saw no add for what it held and no update or delete for what it lacked, and holds exactly the known endpoints not blocked by the policies the events leave |
| Proxy.AddTwice | pkg/network/proxy/proxy.go:289-298 | The same endpoints added twice break the handler's view |
| NetID.AcceptedIsProper | pkg/network/master/netid/netid.go:30-44 | An accepted range lies within the VNIDs iff its end does not wrap around 32 bits |
| NetID.AcceptedIff | pkg/network/master/netid/netid.go:30-44 | A range that does not wrap around is accepted iff it is nonempty and lies within 10 to 2^24-1, and then kept as it is |
| NetID.WrappingRangeIsAccepted | pkg/network/master/netid/netid.go:30-44 | A wrapping range is accepted |
| NetID.Allocator.Allocate | pkg/network/master/netid/allocator.go:55-69 | Takes the ID iff it is in range and free, with the error that says why not |
| NetID.Allocator.AllocateNext | pkg/network/master/netid/allocator.go:73-82 | Takes some free ID of the range; fails iff none is free |
| NetID.Allocator.Release | pkg/network/master/netid/allocator.go:87-93 | Frees exactly that ID |
| NetID.Allocator.Has | pkg/network/master/netid/allocator.go:97-103 | True iff the ID is taken |
| Vnids.MasterVNIDMap.constructor | pkg/network/master/vnids.go:33-45 | A new map is empty with an exact allocator over 10 to 2^24-1 |
| Vnids.MasterVNIDMap.GetVNIDCount | pkg/network/master/vnids.go:62-70 | The number of namespaces with the ID |
| Vnids.MasterVNIDMap.MarkAllocatedNetID | pkg/network/master/vnids.go:79-92 | Takes the ID if it is in range; an ID already taken is no error |
| Vnids.MasterVNIDMap.InitNetIDAllocator | pkg/network/master/vnids.go:283-297 | Every listed namespace has its ID and the allocator is exact |
| Vnids.MasterVNIDMap.AllocateNetID | pkg/network/master/vnids.go:94-117 | A new namespace gets an ID nobody else has, or the global one if it is an admin namespace |
| Vnids.MasterVNIDMap.ReleaseNetID | pkg/network/master/vnids.go:119-142 | Forgets the namespace and keeps the allocator exact |
| Vnids.MasterVNIDMap.ChooseNetID | pkg/network/master/vnids.go:149-183 | The ID an action asks for: the global one, the joined namespace's, or for isolation the namespace's own if it is alone on it and else one nobody has; refused iff the joined namespace is unknown, default is to be isolated, or every ID is held |
| Vnids.MasterVNIDMap.UpdateNetID | pkg/network/master/vnids.go:144-195 | Join, isolate and global do what they say; isolate leaves an ID nobody else has; the allocator stays exact iff the namespace does not join itself while alone on an ID of the range |
| Vnids.JoinItself | pkg/network/master/vnids.go:144-195 | Joining itself leaves an ID in use and free at once |
| Vnids.MasterVNIDMap.AssignVNID | pkg/network/master/vnids.go:198-223 | A failed create restores map and allocator |
| Vnids.MasterVNIDMap.RevokeVNID | pkg/network/master/vnids.go:225-238 | A failed delete changes nothing |
| Vnids.Serve | pkg/network/master/vnids.go:79-297 | After any listing and any run without self-joins: the map is what the listing and the answers say, each answer is right for the map before it (a new ID nobody holds, refused only when every ID of the range is held), and the allocator holds exactly the in-range IDs of the map |
| VxlanMonitor.RetriesAreSuspicious | pkg/network/node/vxlan_monitor.go:211-253 | Retries never exceed two; while retrying the baseline is held and each look since was suspicious |
| VxlanMonitor.OfflineAfterThreeLooks | pkg/network/node/vxlan_monitor.go:189-257 | A node is reported offline iff in its last three looks more was sent, and the same received, as in the look before them (or as zero), at which it was online and unsuspected |
| VxlanMonitor.OnlineIffReceived | pkg/network/node/vxlan_monitor.go:211-216 | A node is reported online iff it was offline and more was received than in the look just before |
| VxlanMonitor.BaseIsLastSettled | pkg/network/node/vxlan_monitor.go:211-253 | The counters compared against are those of the last look that was not suspicious, zero before the first |
| VxlanMonitor.SuspectedIff | pkg/network/node/vxlan_monitor.go:222-253 | A node is suspected after a look iff it was online, more was sent and the same received as in the counters compared against, and it was not the third such look in a row |
| VxlanMonitor.ReportsAlternate | pkg/network/node/vxlan_monitor.go:211-253 | Reports alternate, starting with offline, and agree with the flag |
| VxlanMonitor.EgressVXLANMonitor.AddNode | pkg/network/node/vxlan_monitor.go:82-96 | A new node starts fresh, a known one is left alone |
| VxlanMonitor.EgressVXLANMonitor.RemoveNode | pkg/network/node/vxlan_monitor.go:98-112 | Forgets the node |
| VxlanMonitor.EgressVXLANMonitor.Check | pkg/network/node/vxlan_monitor.go:189-257 | Takes one look at every node, or at the suspected ones, keeps the set of nodes, reports to the tracker what the looks say and nothing else, and asks for a retry iff a node is suspected afterwards; without counters it does nothing |
| VxlanMonitor.EgressVXLANMonitor.Poll | pkg/network/node/vxlan_monitor.go:259-269 | At most two re-checks, whatever the counters do; each round looks at every node that is to be looked at in it, and unless a dump fails no node is left suspected |
| FlowText.ActionReadsBack | pkg/network/node/ovs/parse.go:64-78 | An action text gives back the action it was printed from |
| FlowText.ActionRefusedIff | pkg/network/node/ovs/parse.go:64-78 | An action is refused iff it is empty or its first colon or parenthesis is its last character |
| FlowText.CutIsOutside | pkg/network/node/ovs/parse.go:99-128 | Actions are cut only at commas outside all brackets that opened since the scan began, which after a cut is one character into the rest |
| FlowSplit.CutIsFirst | pkg/network/node/ovs/parse.go:99-128 | Scanning a text from its start, the cut is the first comma outside all brackets of the text |
| FlowSplit.SeparatedIsSplitProperly | pkg/network/node/ovs/parse.go:80-131 | A text in which no comma outside all brackets is followed by a bracket or comma is split, or refused, as if every rest were scanned from its start |
| FlowSplit.SplitIsProperIff | pkg/network/node/ovs/parse.go:80-131 | For accepted texts that condition is exact: the split is the proper one iff it holds |
| FlowSplit.CutInsideBrackets | pkg/network/node/ovs/parse.go:108-128 | A balanced text that is cut inside its parentheses |
| FlowSplit.UnbalancedIsAccepted | pkg/network/node/ovs/parse.go:108-128 | A text with an open parenthesis that is accepted |
| FlowText.ParseActions | pkg/network/node/ovs/parse.go:80-131 | The scanning loop ends and splits as specified |
| FlowText.SplitJoined | pkg/network/node/ovs/parse.go:80-131 | Joined actions are split where they were joined |
| FlowText.ParseFlow | pkg/network/node/ovs/parse.go:155-307 | The parsing loop ends for every text and computes the parse that the rows of FlowRows describe |
| FlowRows.AddReads | pkg/network/node/ovs/parse.go:155-307 | Fields and actions parsed for adding: accepted iff table and priority are numbers in range, out_port and out_group are not given, addresses and ports come with a protocol that has them, and the cookie has no mask; the result has the last table, priority and cookie given, else 0, 32768 and "0", the other fields in order, and the actions |
| FlowRows.FilterReads | pkg/network/node/ovs/parse.go:155-307 | Fields parsed as a filter: accepted iff numbers, out_port, out_group and fields are as for adding and a cookie has a mask; what is not given stays at -1 or empty |
| FlowRows.PriorityIsAccepted | pkg/network/node/ovs/parse.go:213-269 | A filter with a priority is accepted, since the priority never becomes a field for the check to find |
| FlowRows.DumpReads | pkg/network/node/ovs/parse.go:155-307 | Fields parsed as a dump: accepted iff the numbers are in range and addresses and ports come with a protocol that has them |
| FlowRows.ActionsFitPurpose | pkg/network/node/ovs/parse.go:250-283 | Adding fails without actions, a filter fails with them, a dump takes them |
| FlowRows.DumpRoundTrip | pkg/network/node/ovs/fake_ovs.go:348-376 | Printing a flow and parsing the text as a dump gives the same flow, except that the default priority reads as not given |
| FlowRows.AgreeingIsConsistent | pkg/network/node/ovs/parse.go:286-304 | The six checks of fields against protocols pass iff addresses, ARP fields, ports and fragments stand with the protocols they need |
| FlowRows.EmptyFieldFails | pkg/network/node/ovs/parse.go:184-202 | A field with an equals sign and no value, and an empty list of actions, is refused in whatever text |
| FlowRows.BlanksAround | pkg/network/node/ovs/parse.go:174 | Blanks around the text change nothing |
| FlowRows.SeparatorsAreAlike | pkg/network/node/ovs/parse.go:176-236 | Any nonempty mix of commas and blanks separates two fields |
| FlowRows.AtoiReads | pkg/network/node/ovs/parse.go:205-220 | Decimal text, with leading zeros or a sign, reads as its number |
| FlowRows.AtoiRefuses | pkg/network/node/ovs/parse.go:205-220 | A text is a number iff it has at least one digit and, behind one optional sign, nothing but digits |
| FlowText.DumpFlow | pkg/network/node/ovs/fake_ovs.go:348-376 | Prints what the specification prints |
| FlowText.RoundTrip | pkg/network/node/ovs/fake_ovs.go:348-376 | Printing a flow and parsing the text for adding gives the same table, priority, cookie, fields and actions, for flows whose tokens hold no separators and whose actions balance their brackets, have nothing to trim, and have a text that does not start with a bracket or comma |
| FlowStored.ParsedIsPrintable | pkg/network/node/ovs/parse.go:155-307 | Parsing for adding stores only flows that can be printed and read back, from texts whose fields have names and whose actions start with neither bracket nor comma, also behind leading colons |
| FlowStored.FixFields | pkg/network/node/ovs/fake_ovs.go:231-245 | The loop renames nw_src and nw_dst of an ARP flow to arp_spa and arp_tpa, and nothing else |
| FlowStored.FixedIsPrintable | pkg/network/node/ovs/fake_ovs.go:231-245 | Renaming the address fields of an ARP flow keeps it so |
| FlowStored.StoredRoundTrip | pkg/network/node/ovs/fake_ovs.go:254-272 | What is stored for such a text is read back from its dump unchanged, and stored the same again |

## Left out

- Node, namespace and address records of the tracker are values in tables keyed by identity, not heap objects; sharing is kept through the identities, but aliasing in the heap is not modelled.
- `EgressTracker.EgressIPTracker.EgressIPActive` being the same as "assigned" for every address at all times is not a property of the code: offering another address of a namespace on a node marks that address only, not its siblings. Every operation leaves it exact for the addresses it marks, and it is exact at all times for a namespace with one address (`EgressRuns.SingleAddressAssigned`).
- The index of nodes by node IP is what the events leave (`EgressRuns.Replay`), and exact when node IPs are not shared (`EgressRuns.IndexIsExact`); nodes with the same IP share one entry, and what that does to the addresses of the node without an entry is not stated.
- The SDN IP kept for pinging, the ping itself, informers, locks and logging.
- Convergence of repeated rebalancing, and the master's coalescing and ping loop.
- Table 100: the MAC address lookup of tun0 and failing transactions; marks are numbers rather than their hexadecimal text, and netlink and iptables calls are not modelled.
- SubnetMaster.Serve: marks are of the size configured for the network that contains them; `SubnetMaster.MarkAllocatedNetwork` and `SubnetMaster.WrongSizeOverlaps` say what any other mark does.
- Vnids.Serve: excludes a namespace that joins itself; `Vnids.MasterVNIDMap.UpdateNetID` says what such a join does.
- NetworkPolicy: policies that affect only egress, whose selected address is the empty string; label selectors that do not parse; refreshing cached policies when pods or namespaces change; the sorting of flow texts.
- EgressPolicy and Proxy: rules with DNS names, and CIDR texts that do not parse; priorities above 65535.
- Proxy.OsdnProxy.UpdateEgressNetworkPolicy: does not model DNS-name rules, because their addresses come from DNS.
- PolicyNode.Enforce: starts without the start-up listing of policies, so empty policies do not occur in runs (`ProxyBridge.ProxyCanDisagree` shows what one does); the lookup of an unknown VNID through the API, and an Added event for a namespace whose VNID the start-up listing already set to another, are not modelled.
- VxlanMonitor: reading the counters out of dumped flows, and the start and stop of the polling goroutine.
- FlowText: matching of stored flows against filters, the ordering and replacement of stored flows, and roll-back of a failed transaction; Unicode white space beyond Latin-1 is not trimmed; error texts are shortened; numbers beyond 64 bits are read as numbers and then refused as out of range.
- The hybrid proxier switches services between the user-space and the iptables proxy, and the unidler wakes idled services; both sit below the endpoint handler, of which the theorems use only the calls it gets.
- Pod set-up and service flows and multicast fill other OpenFlow tables; no theorem depends on them.
- The node's VNID map caches names and IDs, and the DNS cache resolves the names in policies; their results are inputs here.
