/** What holds after every operation of every run of a tracker, said without
    reference to how the tracker gets there. */
module EgressRuns {
  import opened Wrappers
  import opened Watcher
  import opened EgressState
  import opened EgressSync
  import opened EgressTables
  import opened EgressTracker
  import OpenFlow
  import EgressNode
  import EgressOps

  datatype Op =
    | HostSubnet(uid: string, host: string, hostIP: string, ips: seq<string>, cidrs: seq<string>)
    | NetNamespace(vnid: VNID, ips: seq<string>)
    | NodeOffline(nodeIP: string, offline: bool)

  predicate Sensible(op: Op) {
    match op
    case HostSubnet(_, _, hostIP, ips, _) => hostIP != "" && RealIPs(ToSet(ips))
    case NetNamespace(_, ips) => RealIPs(ToSet(ips))
    case NodeOffline(_, _) => true
  }

  /** `r` is the route a namespace requesting `req` should have: normal if nothing
      is requested; dropped if a requested address is claimed by two namespaces;
      otherwise through the first requested address that is assigned (and whose
      host is online, when several are requested), on the node it is assigned to,
      which is its only host; else dropped. */
  ghost predicate Declared(s: State, req: seq<string>, r: Route) {
    match r
    case Normal => req == []
    case Dropped => req != [] && (Shared(s, req) || forall i | 0 <= i < |req| :: !Serves(s, req, req[i]))
    case Via(ip, node) =>
      && req != [] && !Shared(s, req)
      && (exists i | 0 <= i < |req| ::
            req[i] == ip && Serves(s, req, ip) && forall j | 0 <= j < i :: !Serves(s, req, req[j]))
      && ip in s.assignee && s.assignee[ip] == node
      && (exists n | n in s.nodeIP :: ip in s.hosts && s.hosts[ip] == {n} && s.nodeIP[n] == node)
  }

  /** Two namespaces request one of the addresses. */
  ghost predicate Shared(s: State, req: seq<string>) {
    exists ip, v, w :: ip in req && ip in s.users && v in s.users[ip] && w in s.users[ip] && v != w
  }

  /** The address is assigned; and no node that offers it is offline, unless it is the only one requested. */
  ghost predicate Serves(s: State, req: seq<string>, ip: string) {
    && ip in s.hosts && ip in s.assignee && s.assignee[ip] != ""
    && (|req| == 1 || forall n | n in s.hosts[ip] && n in s.offline :: !s.offline[n])
  }

  lemma SharedIsContested(s: State, req: seq<string>)
    ensures Shared(s, req) <==> Contested(s, req)
  {
    if ip :| ip in req && ip in s.users && |s.users[ip]| > 1 {
      var v :| v in s.users[ip];
      assert |s.users[ip] - {v}| > 0;
      var w :| w in s.users[ip] - {v};
    }
    if ip, v, w :| ip in req && ip in s.users && v in s.users[ip] && w in s.users[ip] && v != w {
      if |s.users[ip]| == 1 { SoleMember(s.users[ip], v, w); }
      assert |s.users[ip]| > 1;
    }
  }

  lemma AssignedIsSingle(s: State, ip: string) returns (n: NodeId, v: VNID)
    requires Stable(s) && ip in s.assignee && s.assignee[ip] != ""
    ensures s.hosts[ip] == {n} && s.users[ip] == {v}
    ensures n in s.nodeIP && s.nodeIP[n] == s.assignee[ip] && ip in s.nodeIPs[n]
    ensures v in s.requested && ip in s.requested[v]
    ensures ip in s.view.held && s.view.held[ip] == Holder(v, s.nodeIP[n])
  {
    assert InOrder(s, ip) && Held(s, ip);
    n :| n in s.hosts[ip];
    v :| v in s.users[ip];
    forall m | m in s.hosts[ip] ensures m == n { SoleMember(s.hosts[ip], n, m); }
    forall o | o in s.users[ip] ensures o == v { SoleMember(s.users[ip], v, o); }
    assert ip in s.spaceIPs[v];
  }

  lemma UnassignedIsFree(s: State, ip: string)
    requires Stable(s) && (ip in s.assignee ==> s.assignee[ip] == "")
    ensures ip !in s.view.held
  {
    assert ip in s.hosts ==> Held(s, ip);
  }

  /** The route in force for every VNID is the declared one. */
  lemma RouteIsDeclared(s: State, v: VNID)
    requires Stable(s)
    ensures Declared(s, RequestOf(s, v), RouteOf(s.view, v))
  {
    if v in s.requested {
      var req := s.requested[v];
      assert Routed(s, v);
      SharedIsContested(s, req);
      FirstUsableIsFirst(s, req, |req| > 1);
      assert forall ip | req != [] :: Serves(s, req, ip) <==> Usable(s, ip, |req| > 1);
      ChoiceIsRequested(s, req);
      var r := Choice(s, req);
      if r.Via? {
        var n, o := AssignedIsSingle(s, r.ip);
      }
    }
  }

  /** In the table made from the announced routes, an IP packet leaves as its VNID's
      declared route says: through the tunnel to the one host of the
      address, or marked with the VNID's own mark when this node is that host. */
  lemma PacketIsRoutedAsDeclared(s: State, h: EgressNode.Host, p: OpenFlow.Packet, r: Route)
    requires Stable(s) && p.isIP && !EgressNode.Special(h, p)
    requires Declared(s, RequestOf(s, p.reg0), r)
    ensures OpenFlow.Decides(EgressNode.TableFor(h, s.view.routes), p, EgressNode.ExitFor(h, p.reg0, r))
  {
    hide Stable, Declared, EgressNode.TableFor, EgressNode.ExitFor, OpenFlow.Decides;
    RouteIsDeclared(s, p.reg0);
    DeclaredIsUnique(s, RequestOf(s, p.reg0), r, RouteOf(s.view, p.reg0));
    EgressNode.PacketFollowsRoute(h, s.view, p);
  }

  /** A declaration leaves no choice: the route is determined by the state. */
  lemma DeclaredIsUnique(s: State, req: seq<string>, r: Route, r': Route)
    requires Declared(s, req, r) && Declared(s, req, r')
    ensures r == r'
  {
  }

  /** No namespace has two assigned addresses on the same node. */
  lemma OneAddressPerNode(s: State, v: VNID, ip: string, other: string)
    requires Stable(s) && v in s.requested && ip in s.requested[v] && other in s.requested[v] && ip != other
    requires ip in s.assignee && other in s.assignee && s.assignee[ip] != "" && s.assignee[other] != ""
    ensures s.hosts[ip] !! s.hosts[other]
  {
    var n, o := AssignedIsSingle(s, ip);
    var m, p := AssignedIsSingle(s, other);
    assert ip in s.spaceIPs[v] && other in s.spaceIPs[v];
    assert v in s.users[ip] && v in s.users[other];
    assert Apart(s, ip, other);
  }

  /** The only address of a namespace is assigned exactly when it has one host and one namespace. */
  lemma SingleAddressAssigned(s: State, v: VNID, ip: string)
    requires Stable(s) && v in s.requested && ToSet(s.requested[v]) == {ip}
    ensures ip in s.hosts && (s.assignee[ip] != "" <==> |s.hosts[ip]| == 1 && |s.users[ip]| == 1)
  {
    assert ip in s.spaceIPs[v];
    assert v in s.users[ip];
    assert InOrder(s, ip);
    if |s.users[ip]| == 1 {
      forall o | o in s.users[ip] ensures o == v { SoleMember(s.users[ip], v, o); }
    }
  }

  /** The cross indexes are exact: who is in an address's lists is who requests it,
      and the addresses tracked are the addresses requested. */
  lemma IndexesAreExact(s: State, ip: string)
    requires Stable(s)
    ensures ip in s.hosts ==> forall n | n in s.nodeIPs :: n in s.hosts[ip] <==> ip in s.nodeIPs[n]
    ensures ip in s.hosts ==> forall v | v in s.requested :: v in s.users[ip] <==> ip in s.requested[v]
    ensures ip in s.hosts
            <==> (exists n | n in s.nodeIPs :: ip in s.nodeIPs[n])
                 || (exists v | v in s.requested :: ip in s.requested[v])
  {
    assert forall v | v in s.requested && ip in s.requested[v] :: ip in s.spaceIPs[v];
    if ip in s.hosts {
      assert Wanted(s, ip);
      forall v | v in s.requested ensures v in s.users[ip] <==> ip in s.requested[v] {
        assert ip in s.spaceIPs[v] <==> ip in s.requested[v];
        assert v in s.users[ip] ==> ip in s.spaceIPs[v];
      }
      if s.hosts[ip] != {} {
        var n :| n in s.hosts[ip];
        assert ip in s.nodeIPs[n];
      } else {
        var v :| v in s.users[ip];
        assert ip in s.spaceIPs[v];
      }
    }
  }

  // ---- whole runs -------------------------------------------------------------------

  /** What the last NetNamespace events ask for. */
  function RequestsAfter(ops: seq<Op>): map<VNID, seq<string>> {
    if ops == [] then map[]
    else
      var before := RequestsAfter(ops[..|ops| - 1]);
      match ops[|ops| - 1]
      case NetNamespace(vnid, ips) => if ips == [] then before - {vnid} else before[vnid := ips]
      case _ => before
  }

  datatype Offer = Offer(hostIP: string, ips: set<string>, cidrs: set<string>)

  /** What the last HostSubnet events offer, by UID. */
  function OffersAfter(ops: seq<Op>): map<string, Offer> {
    if ops == [] then map[]
    else
      var before := OffersAfter(ops[..|ops| - 1]);
      match ops[|ops| - 1]
      case HostSubnet(uid, _, hostIP, ips, cidrs) =>
        if ips == [] && cidrs == [] then before - {uid} else before[uid := Offer(hostIP, ToSet(ips), ToSet(cidrs))]
      case _ => before
  }

  /** Which node objects the events leave, under which UID and IP, and which of them are offline. */
  function RosterAfter(ops: seq<Op>): Roster {
    if ops == [] then Roster(map[], map[], map[], map[], 0)
    else
      var before := RosterAfter(ops[..|ops| - 1]);
      match ops[|ops| - 1]
      case HostSubnet(uid, _, hostIP, ips, cidrs) => HostStep(before, uid, hostIP, ips == [] && cidrs == [])
      case NodeOffline(nodeIP, offline) => OfflineStep(before, nodeIP, offline)
      case NetNamespace(_, _) => before
  }

  /** No two HostSubnets ever have the same node IP, and one is deleted under the IP it has. */
  ghost predicate SteadyHosts(ops: seq<Op>) {
    && (forall a, b | a in ops && b in ops && a.HostSubnet? && b.HostSubnet? && a.hostIP == b.hostIP :: a.uid == b.uid)
    && (forall i {:trigger ops[i]} | 0 <= i < |ops| && ops[i].HostSubnet? && ops[i].ips == [] && ops[i].cidrs == [] ::
          ops[i].uid in OffersAfter(ops[..i]) ==> OffersAfter(ops[..i])[ops[i].uid].hostIP == ops[i].hostIP)
  }

  /** The roster has a node object of its own for every HostSubnet on offer, and finds it
      under the node IP, and nothing else. */
  ghost predicate Indexes(r: Roster, offers: map<string, Offer>) {
    && r.nodes.Keys == offers.Keys
    && (forall u {:trigger r.nodes[u]} | u in r.nodes ::
          && r.nodes[u] < r.next && r.nodes[u] in r.at && r.at[r.nodes[u]] == offers[u].hostIP
          && offers[u].hostIP in r.byIP && r.byIP[offers[u].hostIP] == r.nodes[u])
    && (forall a {:trigger r.byIP[a]} | a in r.byIP :: exists u :: u in offers && offers[u].hostIP == a)
  }

  /** With node IPs that are not shared, the index by node IP is exact. */
  lemma {:induction false} IndexIsExact(ops: seq<Op>)
    requires SteadyHosts(ops)
    ensures Indexes(RosterAfter(ops), OffersAfter(ops))
    ensures forall u {:trigger OffersAfter(ops)[u]} | u in OffersAfter(ops) ::
              exists op :: op in ops && op.HostSubnet? && op.uid == u && op.hostIP == OffersAfter(ops)[u].hostIP
    decreases |ops|
  {
    hide Indexes, HostStep;
    if ops == [] {
      NothingIndexed();
    } else {
      var op, init := ops[|ops| - 1], ops[..|ops| - 1];
      SteadyBefore(ops);
      IndexIsExact(init);
      var r, offers := RosterAfter(init), OffersAfter(init);
      assert op in ops && forall o | o in init :: o in ops;
      if op.HostSubnet? {
        forall u | u in offers && u != op.uid ensures offers[u].hostIP != op.hostIP {
          var o :| o in init && o.HostSubnet? && o.uid == u && o.hostIP == offers[u].hostIP;
        }
        HostStepIndexes(r, offers, op.uid, Offer(op.hostIP, ToSet(op.ips), ToSet(op.cidrs)),
                        op.ips == [] && op.cidrs == []);
      } else if op.NodeOffline? {
        OfflineStepIndexes(r, offers, op.nodeIP, op.offline);
      }
      forall u | u in OffersAfter(ops)
        ensures exists op :: op in ops && op.HostSubnet? && op.uid == u && op.hostIP == OffersAfter(ops)[u].hostIP
      {
        if !(op.HostSubnet? && op.uid == u) {
          assert u in offers && offers[u] == OffersAfter(ops)[u];
          var o :| o in init && o.HostSubnet? && o.uid == u && o.hostIP == offers[u].hostIP;
          assert o in ops;
        }
      }
    }
  }

  lemma NothingIndexed()
    ensures Indexes(RosterAfter([]), OffersAfter([]))
  {
  }

  lemma SteadyBefore(ops: seq<Op>)
    requires SteadyHosts(ops) && ops != []
    ensures SteadyHosts(ops[..|ops| - 1])
    ensures var op, init := ops[|ops| - 1], ops[..|ops| - 1];
            op.HostSubnet? && op.ips == [] && op.cidrs == [] && op.uid in OffersAfter(init) ==>
              OffersAfter(init)[op.uid].hostIP == op.hostIP
  {
    hide OffersAfter;
    var init := ops[..|ops| - 1];
    assert forall i | 0 <= i < |init| :: init[i] == ops[i] && init[..i] == ops[..i];
    assert forall o | o in init :: o in ops;
    assert ops[|ops| - 1] == ops[|ops| - 1];
  }

  lemma HostStepIndexes(r: Roster, offers: map<string, Offer>, uid: string, o: Offer, gone: bool)
    requires Indexes(r, offers) && (forall u | u in offers && u != uid :: offers[u].hostIP != o.hostIP)
    requires gone && uid in offers ==> offers[uid].hostIP == o.hostIP
    requires forall u, w | u in offers && w in offers && u != w :: offers[u].hostIP != offers[w].hostIP
    ensures Indexes(HostStep(r, uid, o.hostIP, gone), if gone then offers - {uid} else offers[uid := o])
  {
    hide Indexes, HostStep;
    if uid !in offers {
      if gone { UnknownGoes(r, offers, uid, o.hostIP); } else { NewHostIndexes(r, offers, uid, o); }
    } else if gone {
      HostGoes(r, offers, uid);
    } else {
      HostMoves(r, offers, uid, o);
    }
  }

  lemma UnknownGoes(r: Roster, offers: map<string, Offer>, uid: string, hostIP: string)
    requires Indexes(r, offers) && uid !in offers
    ensures HostStep(r, uid, hostIP, true) == r && offers - {uid} == offers
  {
  }

  lemma NewHostIndexes(r: Roster, offers: map<string, Offer>, uid: string, o: Offer)
    requires Indexes(r, offers) && uid !in offers && (forall u | u in offers :: offers[u].hostIP != o.hostIP)
    ensures Indexes(HostStep(r, uid, o.hostIP, false), offers[uid := o])
  {
    var r', offers' := HostStep(r, uid, o.hostIP, false), offers[uid := o];
    forall a | a in r'.byIP ensures exists u :: u in offers' && offers'[u].hostIP == a {
      if a == o.hostIP {
        assert uid in offers';
      } else {
        var u :| u in offers && offers[u].hostIP == a;
        assert u in offers';
      }
    }
  }

  lemma HostGoes(r: Roster, offers: map<string, Offer>, uid: string)
    requires Indexes(r, offers) && uid in offers
    requires forall u | u in offers && u != uid :: offers[u].hostIP != offers[uid].hostIP
    ensures Indexes(HostStep(r, uid, offers[uid].hostIP, true), offers - {uid})
  {
    var at := offers[uid].hostIP;
    var r', offers' := HostStep(r, uid, at, true), offers - {uid};
    assert r'.byIP == r.byIP - {at} && r'.at == r.at;
    forall a | a in r'.byIP ensures exists u :: u in offers' && offers'[u].hostIP == a {
      assert a in r.byIP;
      var u :| u in offers && offers[u].hostIP == a;
      assert u in offers';
    }
  }

  lemma HostMoves(r: Roster, offers: map<string, Offer>, uid: string, o: Offer)
    requires Indexes(r, offers) && uid in offers && (forall u | u in offers && u != uid :: offers[u].hostIP != o.hostIP)
    requires forall u | u in offers && u != uid :: offers[u].hostIP != offers[uid].hostIP
    ensures Indexes(HostStep(r, uid, o.hostIP, false), offers[uid := o])
  {
    hide HostStep, Indexes;
    var r' := HostStep(r, uid, o.hostIP, false);
    MovedRoster(r, offers, uid, o.hostIP);
    MovedNodes(r, offers, uid, o);
    MovedIndex(r, offers, uid, o);
    IndexesIf(r', offers[uid := o]);
  }

  lemma IndexesIf(r: Roster, offers: map<string, Offer>)
    requires r.nodes.Keys == offers.Keys
    requires forall u {:trigger r.nodes[u]} | u in r.nodes ::
               && r.nodes[u] < r.next && r.nodes[u] in r.at && r.at[r.nodes[u]] == offers[u].hostIP
               && offers[u].hostIP in r.byIP && r.byIP[offers[u].hostIP] == r.nodes[u]
    requires forall a {:trigger r.byIP[a]} | a in r.byIP :: exists u :: u in offers && offers[u].hostIP == a
    ensures Indexes(r, offers)
  {
  }

  lemma MovedRoster(r: Roster, offers: map<string, Offer>, uid: string, to: string)
    requires Indexes(r, offers) && uid in offers
    ensures uid in r.nodes && r.nodes.Keys == offers.Keys
    ensures var n, from := r.nodes[uid], offers[uid].hostIP;
            HostStep(r, uid, to, false) == r.(at := r.at[n := to], byIP := ByIPAfter(r.byIP, n, from, to))
  {
  }

  lemma MovedNodes(r: Roster, offers: map<string, Offer>, uid: string, o: Offer)
    requires Indexes(r, offers) && uid in offers && (forall u | u in offers && u != uid :: offers[u].hostIP != o.hostIP)
    requires forall u | u in offers && u != uid :: offers[u].hostIP != offers[uid].hostIP
    ensures var n, from := r.nodes[uid], offers[uid].hostIP;
            var at, byIP, offers' := r.at[n := o.hostIP], ByIPAfter(r.byIP, n, from, o.hostIP), offers[uid := o];
            forall u {:trigger r.nodes[u]} | u in r.nodes ::
              && r.nodes[u] < r.next && r.nodes[u] in at && at[r.nodes[u]] == offers'[u].hostIP
              && offers'[u].hostIP in byIP && byIP[offers'[u].hostIP] == r.nodes[u]
  {
    forall u | u in r.nodes && u != uid ensures r.nodes[u] != r.nodes[uid] {
      assert offers[u].hostIP == r.at[r.nodes[u]];
    }
  }

  lemma MovedIndex(r: Roster, offers: map<string, Offer>, uid: string, o: Offer)
    requires Indexes(r, offers) && uid in offers
    ensures var byIP, offers' := ByIPAfter(r.byIP, r.nodes[uid], offers[uid].hostIP, o.hostIP), offers[uid := o];
            forall a {:trigger byIP[a]} | a in byIP :: exists u :: u in offers' && offers'[u].hostIP == a
  {
    var byIP, offers' := ByIPAfter(r.byIP, r.nodes[uid], offers[uid].hostIP, o.hostIP), offers[uid := o];
    forall a | a in byIP ensures exists u :: u in offers' && offers'[u].hostIP == a {
      if a == o.hostIP {
        assert uid in offers' && offers'[uid].hostIP == a;
      } else {
        assert a in r.byIP && a != offers[uid].hostIP;
        var u :| u in offers && offers[u].hostIP == a;
        assert u in offers' && offers'[u].hostIP == a;
      }
    }
  }

  lemma OfflineStepIndexes(r: Roster, offers: map<string, Offer>, nodeIP: string, offline: bool)
    requires Indexes(r, offers)
    ensures Indexes(OfflineStep(r, nodeIP, offline), offers)
  {
  }

  /** The tracked nodes are the ones on offer, with the records offered. */
  ghost predicate NodesAre(nodes: map<string, NodeId>, store: NodeTable, offers: map<string, Offer>) {
    && nodes.Keys == offers.Keys
    && forall u {:trigger nodes[u]} | u in nodes ::
         && nodes[u] in store && store[nodes[u]].nodeIP == offers[u].hostIP
         && store[nodes[u]].requestedIPs == offers[u].ips && store[nodes[u]].requestedCIDRs == offers[u].cidrs
  }

  lemma NodesAreAfter(nodes: map<string, NodeId>, store: NodeTable, nodes': map<string, NodeId>, store': NodeTable,
                      before: map<string, Offer>, uid: string, o: Offer, gone: bool)
    requires NodesAre(nodes, store, before)
    requires NodesKept(nodes, store, nodes', store', uid) && (uid in nodes' <==> !gone)
    requires uid in nodes' ==> nodes'[uid] in store' && store'[nodes'[uid]].nodeIP == o.hostIP
                               && store'[nodes'[uid]].requestedIPs == o.ips
                               && store'[nodes'[uid]].requestedCIDRs == o.cidrs
    ensures NodesAre(nodes', store', if gone then before - {uid} else before[uid := o])
  {
    var after := if gone then before - {uid} else before[uid := o];
    forall u ensures u in nodes' <==> u in after {
      assert u != uid ==> (u in nodes' <==> u in nodes);
    }
  }

  lemma OfflineNodesAre(nodes: map<string, NodeId>, store: NodeTable, offers: map<string, Offer>,
                        store': NodeTable, n: NodeId, offline: bool)
    requires NodesAre(nodes, store, offers) && n in store && store' == store[n := store[n].(offline := offline)]
    ensures NodesAre(nodes, store', offers)
  {
  }

  ghost predicate AnyCIDRs(offers: map<string, Offer>) {
    exists u :: u in offers && offers[u].cidrs != {}
  }

  /** After the first `n` calls some of the addresses is held nowhere. */
  ghost predicate Vacant(trace: seq<Call>, n: nat, ips: set<string>) {
    && n <= |trace| && Run(trace[..n]).Some?
    && exists ip :: ip in ips && ip !in Run(trace[..n]).value.held
  }

  /** After the first `n` calls some of the addresses is held on the node. */
  ghost predicate HeldOn(trace: seq<Call>, n: nat, ips: set<string>, nodeIP: string) {
    && n <= |trace| && Run(trace[..n]).Some?
    && exists ip :: ip in ips && ip in Run(trace[..n]).value.held && Run(trace[..n]).value.held[ip].node == nodeIP
  }

  function OfferOf(offers: map<string, Offer>, uid: string, hostIP: string): Offer {
    if uid in offers then offers[uid] else Offer(hostIP, {}, {})
  }

  /** The event changes the CIDRs on offer or a node that has some, moves a held address to
      another node IP, or concerns an address that it leaves without a holder. */
  ghost predicate CallsForAllocation(trace: seq<Call>, from: nat, to: nat, ops: seq<Op>, op: Op) {
    match op
    case HostSubnet(uid, _, hostIP, ips, cidrs) =>
      var was := OfferOf(OffersAfter(ops), uid, hostIP);
      || was.cidrs != ToSet(cidrs)
      || (was.hostIP != hostIP && HeldOn(trace, from, was.ips, was.hostIP))
      || Vacant(trace, to, (ToSet(ips) - was.ips) + (was.ips - ToSet(ips)))
    case NodeOffline(nodeIP, _) =>
      var r, offers := RosterAfter(ops), OffersAfter(ops);
      && nodeIP in r.byIP
      && exists u :: u in r.nodes && r.nodes[u] == r.byIP[nodeIP] && u in offers
                     && (offers[u].cidrs != {} || Vacant(trace, to, offers[u].ips))
    case NetNamespace(vnid, ips) =>
      var requests := RequestsAfter(ops);
      Vacant(trace, to, (if vnid in requests then ToSet(requests[vnid]) else {}) + ToSet(ips))
  }

  /** A new allocation is asked for between two points of the trace. */
  ghost predicate Asked(trace: seq<Call>, from: nat, to: nat) {
    exists j | from <= j < to :: j < |trace| && trace[j] == UpdateEgressCIDRs
  }

  /** A new allocation is asked for exactly when some node is left that offers CIDRs and
      the event calls for one. */
  ghost predicate AsksRightly(trace: seq<Call>, from: nat, to: nat, ops: seq<Op>, op: Op) {
    Asked(trace, from, to) <==> AnyCIDRs(OffersAfter(ops + [op])) && CallsForAllocation(trace, from, to, ops, op)
  }

  lemma FreeIsVacant(s: State, trace: seq<Call>, ips: set<string>)
    requires Stable(s) && Run(trace) == Some(s.view)
    ensures Free(s, ips) <==> Vacant(trace, |trace|, ips)
  {
    hide Stable, Run;
    assert trace[..|trace|] == trace;
    forall ip ensures EgressOps.AssigneeOf(s, ip) == "" <==> ip !in s.view.held { AssignedIsHeld(s, ip); }
  }

  lemma AssignedIsHeld(s: State, ip: string)
    requires Stable(s)
    ensures EgressOps.AssigneeOf(s, ip) != "" <==> ip in s.view.held
    ensures ip in s.view.held ==> s.view.held[ip].node == EgressOps.AssigneeOf(s, ip)
  {
    hide Stable;
    if ip in s.assignee && s.assignee[ip] != "" {
      var n, v := AssignedIsSingle(s, ip);
    } else {
      UnassignedIsFree(s, ip);
    }
  }

  lemma HeldByIsHeldOn(s: State, trace: seq<Call>, ips: set<string>, nodeIP: string)
    requires Stable(s) && Run(trace) == Some(s.view) && nodeIP != ""
    ensures HeldBy(s, ips, nodeIP) != {} <==> HeldOn(trace, |trace|, ips, nodeIP)
  {
    hide Stable, Run;
    assert trace[..|trace|] == trace;
    if HeldBy(s, ips, nodeIP) != {} {
      var ip :| ip in HeldBy(s, ips, nodeIP);
      AssignedIsHeld(s, ip);
    }
    if HeldOn(trace, |trace|, ips, nodeIP) {
      var ip :| ip in ips && ip in s.view.held && s.view.held[ip].node == nodeIP;
      AssignedIsHeld(s, ip);
      assert ip in HeldBy(s, ips, nodeIP);
    }
  }

  lemma OffersHaveCIDRs(nodes: map<string, NodeId>, store: NodeTable, offers: map<string, Offer>)
    requires NodesAre(nodes, store, offers)
    ensures SomeCIDRs(nodes, store) <==> AnyCIDRs(offers)
  {
    if SomeCIDRs(nodes, store) {
      var u :| u in nodes && nodes[u] in store && store[nodes[u]].requestedCIDRs != {};
      assert u in offers && offers[u].cidrs != {};
    }
    if AnyCIDRs(offers) {
      var u :| u in offers && offers[u].cidrs != {};
      assert u in nodes && nodes[u] in store;
    }
  }

  lemma ContinuesAsks(before: seq<Call>, after: seq<Call>, ips: set<string>, asked: bool)
    requires Continues(before, after, ips, asked)
    ensures before <= after && (Asked(after, |before|, |after|) <==> asked)
  {
  }

  lemma AskedKept(a: seq<Call>, b: seq<Call>, from: nat, to: nat)
    requires a <= b && to <= |a|
    ensures Asked(b, from, to) <==> Asked(a, from, to)
  {
    if Asked(a, from, to) {
      var j :| from <= j < to && a[j] == UpdateEgressCIDRs;
      assert b[j] == UpdateEgressCIDRs;
    }
    if Asked(b, from, to) {
      var j :| from <= j < to && b[j] == UpdateEgressCIDRs;
      assert a[j] == UpdateEgressCIDRs;
    }
  }

  /** After any run, in whatever order marks are visited: the tracker holds what
      the last events ask for and offer; every VNID has its declared route; the
      watcher has only been told what the protocol allows, and is asked for new
      allocations when it should be.  `at` counts the calls after each event. */
  method Replay(ops: seq<Op>) returns (t: EgressIPTracker, ghost at: seq<nat>)
    requires forall i | 0 <= i < |ops| :: Sensible(ops[i])
    ensures fresh(t) && t.Valid() && Run(t.trace) == Some(t.st.view)
    ensures t.st.requested == RequestsAfter(ops) && NodesAre(t.nodes, t.nodeStore, OffersAfter(ops))
    ensures t.Nodes() == RosterAfter(ops)
    ensures forall v: VNID :: Declared(t.st, RequestOf(t.st, v), RouteOf(t.st.view, v))
    ensures ops != [] && ops[|ops| - 1].NetNamespace? ==> RequestIsExact(t.st, ops[|ops| - 1].ips)
    ensures AllAskRightly(t.trace, at, ops)
  {
    hide Stable, Links, NodesRegistered, SpacesRegistered, RealIPs, Declared, Run, AllAskRightly, RequestIsExact,
         NodesAre, AsksRightly;
    t := new EgressIPTracker();
    at := [0];
    NoEvents(t.nodes, t.nodeStore);
    for i := 0 to |ops|
      invariant fresh(t) && t.Valid() && !t.updateEgressCIDRs && AllAskRightly(t.trace, at, ops[..i])
      invariant i > 0 && ops[i - 1].NetNamespace? ==> RequestIsExact(t.st, ops[i - 1].ips)
      invariant t.st.requested == RequestsAfter(ops[..i]) && NodesAre(t.nodes, t.nodeStore, OffersAfter(ops[..i]))
      invariant t.Nodes() == RosterAfter(ops[..i])
    {
      assert ops[..i + 1] == ops[..i] + [ops[i]];
      ghost var before := t.trace;
      Perform(t, ops[i], ops[..i]);
      AskedMore(before, at, ops[..i], t.trace, ops[i]);
      at := at + [|t.trace|];
    }
    assert ops[..|ops|] == ops;
    forall v: VNID ensures Declared(t.st, RequestOf(t.st, v), RouteOf(t.st.view, v)) { RouteIsDeclared(t.st, v); }
  }

  lemma NoEvents(nodes: map<string, NodeId>, store: NodeTable)
    requires nodes == map[]
    ensures NodesAre(nodes, store, OffersAfter([])) && AllAskRightly([], [0], [])
  {
  }

  /** `at` counts the calls after each event, and each event asks rightly. */
  ghost predicate AllAskRightly(trace: seq<Call>, at: seq<nat>, ops: seq<Op>) {
    && |at| == |ops| + 1 && at[0] == 0 && at[|ops|] == |trace| && (forall k | 0 <= k <= |ops| :: at[k] <= |trace|)
    && (forall k | 0 <= k < |ops| :: AsksRightly(trace, at[k], at[k + 1], ops[..k], ops[k]))
  }

  lemma AskedMore(trace: seq<Call>, at: seq<nat>, ops: seq<Op>, trace': seq<Call>, op: Op)
    requires AllAskRightly(trace, at, ops) && trace <= trace' && AsksRightly(trace', |trace|, |trace'|, ops, op)
    ensures AllAskRightly(trace', at + [|trace'|], ops + [op])
  {
    hide AsksRightly;
    var at', ops' := at + [|trace'|], ops + [op];
    forall k | 0 <= k < |ops'| ensures AsksRightly(trace', at'[k], at'[k + 1], ops'[..k], ops'[k]) {
      assert ops'[..k] == ops[..k];
      if k < |ops| {
        AskedStays(trace, trace', at[k], at[k + 1], ops[..k], ops[k]);
      } else {
        assert ops[..k] == ops;
      }
    }
  }

  lemma AskedStays(a: seq<Call>, b: seq<Call>, from: nat, to: nat, ops: seq<Op>, op: Op)
    requires a <= b && from <= |a| && to <= |a| && AsksRightly(a, from, to, ops, op)
    ensures AsksRightly(b, from, to, ops, op)
  {
    hide Asked, Run, AnyCIDRs;
    AskedKept(a, b, from, to);
    assert a[..from] == b[..from] && a[..to] == b[..to];
  }

  method Perform(t: EgressIPTracker, op: Op, ghost ops: seq<Op>)
    requires t.Valid() && Sensible(op) && !t.updateEgressCIDRs
    requires t.st.requested == RequestsAfter(ops)
    requires NodesAre(t.nodes, t.nodeStore, OffersAfter(ops)) && t.Nodes() == RosterAfter(ops)
    modifies t
    ensures t.Valid() && t.st.requested == RequestsAfter(ops + [op])
    ensures NodesAre(t.nodes, t.nodeStore, OffersAfter(ops + [op]))
    ensures old(t.trace) <= t.trace && t.Nodes() == RosterAfter(ops + [op]) && !t.updateEgressCIDRs
    ensures AsksRightly(t.trace, |old(t.trace)|, |t.trace|, ops, op)
    ensures op.NetNamespace? ==> RequestIsExact(t.st, op.ips)
  {
    hide Stable, Links, NodesRegistered, SpacesRegistered, RealIPs, NodesKept, NodesAre, HostStep, Continues, SomeCIDRs,
         AnyCIDRs, Free, AssignedIff, RequestIsExact, Asked, HeldBy, Vacant, HeldOn, Run, CallsForAllocation,
         AsksRightly, NodesTracked;
    assert (ops + [op])[..|ops|] == ops;
    match op
    case HostSubnet(uid, host, hostIP, ips, cidrs) =>
      RealNodes(t);
      t.UpdateHostSubnetEgress(uid, host, hostIP, ips, cidrs);
      NodesAreAfter(old(t.nodes), old(t.nodeStore), t.nodes, t.nodeStore, OffersAfter(ops), uid,
                    Offer(hostIP, ToSet(ips), ToSet(cidrs)), ips == [] && cidrs == []);
      HostAsks(old(t.nodes), old(t.nodeStore), t.nodes, t.nodeStore, OffersAfter(ops + [op]),
               old(t.st), t.st, old(t.trace), t.trace, ops, uid, host, hostIP, ips, cidrs);
    case NetNamespace(vnid, ips) =>
      t.UpdateNetNamespaceEgress(vnid, ips);
      SpaceAsks(t.nodes, t.nodeStore, t.st, old(t.trace), t.trace, ops, vnid, ips);
    case NodeOffline(nodeIP, offline) =>
      t.SetNodeOffline(nodeIP, offline);
      if nodeIP in t.nodesByNodeIP {
        OfflineNodesAre(t.nodes, old(t.nodeStore), OffersAfter(ops), t.nodeStore, t.nodesByNodeIP[nodeIP], offline);
        Registered(t);
        OfflineAsks(t.nodes, t.nodeStore, t.st, old(t.trace), t.trace, ops, nodeIP, offline);
      } else {
        NothingAsked(t.trace, ops, nodeIP, offline);
      }
  }

  lemma RealNodes(t: EgressIPTracker)
    requires t.Valid()
    ensures forall u | u in t.nodes && t.nodes[u] in t.nodeStore :: t.nodeStore[t.nodes[u]].nodeIP != ""
  {
  }

  lemma Registered(t: EgressIPTracker)
    requires t.Valid()
    ensures NodesTracked(t.nodes, t.nodeStore) && t.nodeStore.Keys == t.st.nodeIPs.Keys
    ensures forall n | n in t.nodeStore :: t.nodeStore[n].requestedIPs == t.st.nodeIPs[n]
  {
  }

  lemma NothingAsked(trace: seq<Call>, ops: seq<Op>, nodeIP: string, offline: bool)
    requires nodeIP !in RosterAfter(ops).byIP
    ensures AsksRightly(trace, |trace|, |trace|, ops, NodeOffline(nodeIP, offline))
  {
    hide AnyCIDRs;
  }

  lemma SpaceAsks(nodes: map<string, NodeId>, store: NodeTable, s: State, before: seq<Call>, after: seq<Call>,
                  ops: seq<Op>, vnid: VNID, ips: seq<string>)
    requires NodesAre(nodes, store, OffersAfter(ops)) && Stable(s) && Run(after) == Some(s.view)
    requires var requests := RequestsAfter(ops);
             var ips' := ToSet(if vnid in requests then requests[vnid] else []) + ToSet(ips);
             Continues(before, after, ips', SomeCIDRs(nodes, store) && ips' != {} && Free(s, ips'))
    ensures before <= after && AsksRightly(after, |before|, |after|, ops, NetNamespace(vnid, ips))
  {
    hide Asked, Continues, AnyCIDRs, SomeCIDRs, Stable, Run, NodesAre;
    var op := NetNamespace(vnid, ips);
    assert (ops + [op])[..|ops|] == ops;
    var requests := RequestsAfter(ops);
    var ips' := ToSet(if vnid in requests then requests[vnid] else []) + ToSet(ips);
    OffersHaveCIDRs(nodes, store, OffersAfter(ops));
    FreeIsVacant(s, after, ips');
    ContinuesAsks(before, after, ips', SomeCIDRs(nodes, store) && ips' != {} && Free(s, ips'));
  }

  lemma OfflineAsks(nodes: map<string, NodeId>, store: NodeTable, s: State, before: seq<Call>, after: seq<Call>,
                    ops: seq<Op>, nodeIP: string, offline: bool)
    requires NodesAre(nodes, store, OffersAfter(ops)) && NodesTracked(nodes, store) && store.Keys == s.nodeIPs.Keys
    requires forall n | n in store :: store[n].requestedIPs == s.nodeIPs[n]
    requires Stable(s) && Run(after) == Some(s.view)
    requires var r := RosterAfter(ops);
             && nodeIP in r.byIP && r.byIP[nodeIP] in store && r.nodes == nodes
             && var n := r.byIP[nodeIP];
                Continues(before, after, s.nodeIPs[n],
                          SomeCIDRs(nodes, store) && (store[n].requestedCIDRs != {} || Free(s, s.nodeIPs[n])))
    ensures before <= after && AsksRightly(after, |before|, |after|, ops, NodeOffline(nodeIP, offline))
  {
    hide Asked, Continues, AnyCIDRs, SomeCIDRs, Free, Vacant, Stable, Run;
    var op, n := NodeOffline(nodeIP, offline), RosterAfter(ops).byIP[nodeIP];
    assert (ops + [op])[..|ops|] == ops;
    OffersHaveCIDRs(nodes, store, OffersAfter(ops));
    FreeIsVacant(s, after, s.nodeIPs[n]);
    NoneFree(s);
    ContinuesAsks(before, after, s.nodeIPs[n],
                  SomeCIDRs(nodes, store) && (store[n].requestedCIDRs != {} || Free(s, s.nodeIPs[n])));
    if n in nodes.Values {
      var u :| u in nodes && nodes[u] == n;
    }
  }

  lemma HostAsks(nodes: map<string, NodeId>, store: NodeTable, nodes': map<string, NodeId>, store': NodeTable,
                 offers': map<string, Offer>, s: State, s': State, before: seq<Call>, after: seq<Call>,
                 ops: seq<Op>, uid: string, host: string, hostIP: string, ips: seq<string>, cidrs: seq<string>)
    requires NodesAre(nodes, store, OffersAfter(ops)) && NodesAre(nodes', store', offers')
    requires offers' == OffersAfter(ops + [HostSubnet(uid, host, hostIP, ips, cidrs)])
    requires Stable(s) && Run(before) == Some(s.view) && Stable(s') && Run(after) == Some(s'.view) && hostIP != ""
    requires forall u | u in nodes && nodes[u] in store :: store[nodes[u]].nodeIP != ""
    requires var was := RecordOf(nodes, store, uid, NodeEgress(host, hostIP, {}, {}, false));
             var differ := (ToSet(ips) - was.requestedIPs) + (was.requestedIPs - ToSet(ips));
             var move := if was.nodeIP == hostIP then {} else HeldBy(s, was.requestedIPs, was.nodeIP);
             Continues(before, after, differ + move,
                       && SomeCIDRs(nodes', store') && (uid in nodes || ips != [] || cidrs != [])
                       && (was.requestedCIDRs != ToSet(cidrs) || move != {} || Free(s', differ)))
    ensures before <= after
    ensures AsksRightly(after, |before|, |after|, ops, HostSubnet(uid, host, hostIP, ips, cidrs))
  {
    hide Asked, Continues, AnyCIDRs, SomeCIDRs, Free, HeldBy, Vacant, HeldOn, Stable, Run, NodesAre, OffersAfter;
    OffersHaveCIDRs(nodes', store', offers');
    EmptyToSet(cidrs);
    EmptyToSet(ips);
    var was := RecordOf(nodes, store, uid, NodeEgress(host, hostIP, {}, {}, false));
    WasOffered(nodes, store, OffersAfter(ops), uid, host, hostIP);
    var differ := (ToSet(ips) - was.requestedIPs) + (was.requestedIPs - ToSet(ips));
    var move := if was.nodeIP == hostIP then {} else HeldBy(s, was.requestedIPs, was.nodeIP);
    assert uid !in nodes && ips == [] ==> differ == {};
    ContinuesAsks(before, after, differ + move,
                  && SomeCIDRs(nodes', store') && (uid in nodes || ips != [] || cidrs != [])
                  && (was.requestedCIDRs != ToSet(cidrs) || move != {} || Free(s', differ)));
    FreeIsVacant(s', after, differ);
    HeldByIsHeldOn(s, before, was.requestedIPs, was.nodeIP);
    HeldOnKept(before, after, was.requestedIPs, was.nodeIP);
    NoneFree(s');
  }

  lemma WasOffered(nodes: map<string, NodeId>, store: NodeTable, offers: map<string, Offer>,
                   uid: string, host: string, hostIP: string)
    requires NodesAre(nodes, store, offers)
    ensures var was := RecordOf(nodes, store, uid, NodeEgress(host, hostIP, {}, {}, false));
            OfferOf(offers, uid, hostIP) == Offer(was.nodeIP, was.requestedIPs, was.requestedCIDRs)
    ensures uid in nodes ==> nodes[uid] in store
  {
  }

  lemma HeldOnKept(a: seq<Call>, b: seq<Call>, ips: set<string>, nodeIP: string)
    requires a <= b
    ensures HeldOn(b, |a|, ips, nodeIP) <==> HeldOn(a, |a|, ips, nodeIP)
  {
    hide Run;
    assert a[..|a|] == b[..|a|];
  }

  /** A tracker that has seen the events and a node that has followed its calls: table 100
      of the node sends every IP packet as the declared route of its VNID says, and every
      flow that sets a mark sets the mark of the VNID it tests for. */
  method Drive(ops: seq<Op>, h: EgressNode.Host) returns (t: EgressIPTracker, e: EgressNode.EgressIPWatcher)
    requires forall i | 0 <= i < |ops| :: Sensible(ops[i])
    ensures t.Valid() && e.Valid() && e.trace == t.trace
    ensures t.st.requested == RequestsAfter(ops) && t.Nodes() == RosterAfter(ops)
    ensures forall p: OpenFlow.Packet, r |
              p.isIP && !EgressNode.Special(h, p) && Declared(t.st, RequestOf(t.st, p.reg0), r) ::
              OpenFlow.Decides(e.table100, p, EgressNode.ExitFor(h, p.reg0, r))
    ensures forall f | f in e.table100 && f.action.ToPolicyMarked? ::
              f.when.reg0.Some? && f.action.mark == Some(EgressNode.MarkForVNID(f.when.reg0.value, h.masqueradeBit))
  {
    hide Stable, Links, NodesRegistered, SpacesRegistered, Declared, Run, EgressNode.TableFor, EgressNode.MarksFor,
         EgressNode.Special,
         EgressNode.ExitFor, OpenFlow.Decides, EgressNode.MarkForVNID, EgressNode.LastIsClaim, NodesAre;
    ghost var at;
    t, at := Replay(ops);
    e := EgressNode.Follow(h, t.trace);
    forall p: OpenFlow.Packet, r | p.isIP && !EgressNode.Special(h, p) && Declared(t.st, RequestOf(t.st, p.reg0), r)
      ensures OpenFlow.Decides(e.table100, p, EgressNode.ExitFor(h, p.reg0, r))
    {
      PacketIsRoutedAsDeclared(t.st, h, p, r);
    }
    forall f | f in e.table100 && f.action.ToPolicyMarked?
      ensures f.when.reg0.Some? && f.action.mark == Some(EgressNode.MarkForVNID(f.when.reg0.value, h.masqueradeBit))
    {
      EgressNode.MarkedFlowsCarryOwnMark(h, t.st.view, f);
    }
  }

  // ---- monitoring that stops too early ---------------------------------------------------

  lemma ForsakenIsFree(s: State, ip: string)
    requires Stable(s) && forall v | v in s.requested :: ip !in s.requested[v]
    ensures ip !in s.view.held
  {
    hide Stable;
    if ip in s.assignee && s.assignee[ip] != "" {
      var n, v := AssignedIsSingle(s, ip);
    }
    UnassignedIsFree(s, ip);
  }

  lemma HeldIsRequested(s: State, ip: string)
    requires Stable(s) && ip in s.view.held
    ensures forall v | v in s.requested && ip in s.requested[v] :: v == s.view.held[ip].vnid
  {
    hide Stable;
    if ip !in s.assignee || s.assignee[ip] == "" {
      UnassignedIsFree(s, ip);
    }
    var n, o := AssignedIsSingle(s, ip);
    IndexesAreExact(s, ip);
    ShapeOf(s);
  }

  lemma ShapeOf(s: State)
    requires Stable(s)
    ensures s.hosts.Keys == s.assignee.Keys
  {
  }

  /** A namespace gives up its only address while its node holds another one: the last
      call about the node is a release, although the node still holds the other. */
  method Withdraw(t: EgressIPTracker, vnid: VNID, ip: string, other: string, node: string)
    requires t.Valid() && vnid in t.st.requested && t.st.requested[vnid] == [ip] && other != ip
    requires ip in t.st.view.held && t.st.view.held[ip].node == node
    requires other in t.st.view.held && t.st.view.held[other].node == node
    modifies t
    ensures t.Valid() && t.st.requested == old(t.st).requested - {vnid}
    ensures EgressNode.Hosts(t.st.view, node) && EgressNode.LastIsRelease(t.trace, node)
  {
    hide Stable, Links, NodesRegistered, SpacesRegistered, Run, EgressNode.LastIsRelease, Touches, Free,
         AssignedIff, RequestIsExact;
    HeldIsRequested(t.st, ip);
    OnlyNames(ip);
    t.UpdateNetNamespaceEgress(vnid, []);
    assert t.st.requested == old(t.st).requested - {vnid};
    ForsakenIsFree(t.st, ip);
    EgressNode.DroppedIsReleased(old(t.trace), t.trace, ip, node);
    assert other in t.st.view.held;
  }

  lemma OnlyNames(ip: string)
    ensures ToSet([ip]) + ToSet<string>([]) == {ip} && RealIPs(ToSet<string>([]))
  {
  }

  /** With a single node, an address that it offers and one namespace alone requests, as its
      only one, is held there. */
  lemma SingleNodeHolds(s: State, nodes: map<string, NodeId>, store: NodeTable, uid: string, v: VNID, ip: string)
    requires Stable(s) && LinkedNodes(store, s.nodeIP, s.offline) && store.Keys == s.nodeIPs.Keys
    requires NodesTracked(nodes, store) && nodes.Keys == {uid}
    requires forall n | n in store :: store[n].requestedIPs == s.nodeIPs[n]
    requires ip in store[nodes[uid]].requestedIPs && v in s.requested && s.requested[v] == [ip]
    requires forall w | w in s.requested && ip in s.requested[w] :: w == v
    ensures ip in s.view.held && s.view.held[ip] == Holder(v, store[nodes[uid]].nodeIP)
  {
    hide Stable;
    IndexesAreExact(s, ip);
    SingleAddressAssigned(s, v, ip);
    MembersAreKnown(s, ip);
    forall n | n in s.nodeIPs ensures n in s.hosts[ip] <==> n == nodes[uid] {
      assert n != nodes[uid] ==> n !in nodes.Values;
    }
    assert s.hosts[ip] == {nodes[uid]} && s.users[ip] == {v};
    var n, o := AssignedIsSingle(s, ip);
  }

  lemma MembersAreKnown(s: State, ip: string)
    requires Stable(s) && ip in s.hosts
    ensures ip in s.assignee && s.hosts[ip] <= s.nodeIPs.Keys && ip in s.users && s.users[ip] <= s.requested.Keys
  {
  }

  const SHARED_NODE := [HostSubnet("u", "host", "n", ["a", "b"], []), NetNamespace(1, ["a"]), NetNamespace(2, ["b"])]

  lemma SharedNodeRun()
    ensures RequestsAfter(SHARED_NODE) == map[1 := ["a"], 2 := ["b"]]
    ensures OffersAfter(SHARED_NODE) == map["u" := Offer("n", {"a", "b"}, {})]
    ensures forall i | 0 <= i < |SHARED_NODE| :: Sensible(SHARED_NODE[i])
  {
    var x, y, z := SHARED_NODE[0], SHARED_NODE[1], SHARED_NODE[2];
    assert SHARED_NODE[..2] == [x, y] && [x, y][..1] == [x] && [x][..0] == [];
    assert RequestsAfter([x]) == RequestsAfter([]) == map[];
    assert RequestsAfter([x, y]) == map[1 := ["a"]];
    assert ToSet(["a", "b"]) == {"a", "b"} && ToSet<string>([]) == {};
    assert OffersAfter([x]) == map["u" := Offer("n", {"a", "b"}, {})];
    assert OffersAfter([x, y]) == OffersAfter([x]);
  }

  /** Two namespaces with an address each on a remote node, one of which then gives its
      address up: the tracker still holds the other on the node, and the watcher that has
      followed its calls has stopped monitoring the node. */
  method StopsEarly(h: EgressNode.Host) returns (t: EgressIPTracker, e: EgressNode.EgressIPWatcher)
    requires h.localIP != "n"
    ensures t.Valid() && e.Valid() && e.trace == t.trace
    ensures t.st.requested == RequestsAfter(SHARED_NODE + [NetNamespace(1, [])])
    ensures EgressNode.Hosts(t.st.view, "n") && "n" !in e.monitored
  {
    hide Stable, Links, SpacesRegistered, Run, Declared, EgressNode.TableFor, EgressNode.MarksFor,
         EgressNode.LastAbout, EgressNode.Hosts, LinkedNodes, NodesTracked;
    SharedNodeRun();
    ghost var at;
    t, at := Replay(SHARED_NODE);
    BothHeld(t);
    Withdraw(t, 1, "a", "b", "n");
    assert (SHARED_NODE + [NetNamespace(1, [])])[..|SHARED_NODE|] == SHARED_NODE;
    e := EgressNode.Follow(h, t.trace);
  }

  lemma BothHeld(t: EgressIPTracker)
    requires t.Valid() && t.st.requested == map[1 := ["a"], 2 := ["b"]]
    requires NodesAre(t.nodes, t.nodeStore, map["u" := Offer("n", {"a", "b"}, {})])
    ensures "a" in t.st.view.held && t.st.view.held["a"].node == "n"
    ensures "b" in t.st.view.held && t.st.view.held["b"].node == "n"
  {
    hide Stable, SpacesRegistered, Run;
    SingleNodeHolds(t.st, t.nodes, t.nodeStore, "u", 1, "a");
    SingleNodeHolds(t.st, t.nodes, t.nodeStore, "u", 2, "b");
  }
}
