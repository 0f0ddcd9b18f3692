/** EgressIPTracker itself: the tables, the marks, and the operations that edit
    and synchronise them.  The ghost field `st` is the tracker's value; `trace`
    is everything the watcher has been told. */
module EgressTracker {
  import opened Wrappers
  import opened Watcher
  import opened EgressState
  import opened EgressSync
  import opened EgressOps
  import opened EgressTables
  import EgressAlloc

  class EgressIPTracker {
    /** Tracked nodes by the UID of their HostSubnet, and by node IP. */
    var nodes: map<string, NodeId>
    var nodesByNodeIP: map<string, NodeId>
    var namespacesByVNID: set<VNID>
    var egressIPs: IPTable
    var nodesWithCIDRs: int

    var changedEgressIPs: set<string>
    var changedNamespaces: set<VNID>
    var updateEgressCIDRs: bool

    /** The node and namespace records that identities refer to. */
    var nodeStore: NodeTable
    var nsStore: SpaceTable

    /** The identity the next new node record gets. */
    var nextNode: NodeId

    /** The calls made on the watcher. */
    var trace: seq<Call>

    ghost var st: State

    /** The ghost value is the value of the tables, and the watcher has seen a
        trace that the protocol allows. */
    ghost predicate Linked()
      reads this
    {
      Links(egressIPs, nodeStore, nsStore, changedEgressIPs, changedNamespaces, st) && Run(trace) == Some(st.view)
    }

    /** Which nodes are known, under which UID and IP, and which are offline. */
    ghost function Nodes(): Roster
      reads this
    {
      Roster(nodes, nodesByNodeIP, st.nodeIP, st.offline, nextNode)
    }

    /** Holds between operations. */
    ghost predicate Valid()
      reads this
    {
      && Linked() && Stable(st)
      && NodesRegistered(nodes, nodesByNodeIP, nodeStore, st.nodeIPs, nextNode, nodesWithCIDRs)
      && SpacesRegistered(namespacesByVNID, st.requested)
    }

    constructor ()
      ensures Valid() && st == EmptyState && trace == [] && nodes == map[] && nodesByNodeIP == map[] && nextNode == 0
      ensures !updateEgressCIDRs
    {
      nodes, nodesByNodeIP, namespacesByVNID, egressIPs, nodesWithCIDRs := map[], map[], {}, map[], 0;
      changedEgressIPs, changedNamespaces, updateEgressCIDRs := {}, {}, false;
      nodeStore, nsStore, nextNode := map[], map[], 0;
      st, trace := EmptyState, [];
    }

    // ---- marking and editing ---------------------------------------------------

    method EgressIPChanged(ip: string)
      requires ip in egressIPs
      modifies this`changedEgressIPs, this`changedNamespaces
      ensures changedEgressIPs == old(changedEgressIPs) + {ip}
      ensures changedNamespaces == old(changedNamespaces) + ToSet(egressIPs[ip].namespaces)
    {
      var eg := egressIPs[ip];
      changedEgressIPs := changedEgressIPs + {ip};
      for i := 0 to |eg.namespaces|
        invariant changedNamespaces == old(changedNamespaces) + ToSet(eg.namespaces[..i])
        modifies this`changedNamespaces
      {
        changedNamespaces := changedNamespaces + {eg.namespaces[i]};
      }
      assert eg.namespaces[..|eg.namespaces|] == eg.namespaces;
    }

    method Touch(ip: string)
      requires Linked() && ip in egressIPs
      modifies this`changedEgressIPs, this`changedNamespaces, this`st
      ensures Linked() && ip in old(st.users) && Marks(old(st), st, ip)
    {
      ghost var s' := LinkMark(egressIPs, nodeStore, nsStore, changedEgressIPs, changedNamespaces, st, ip);
      EgressIPChanged(ip);
      st := s';
    }

    method AddNodeEgressIP(node: NodeId, egressIP: string)
      requires Linked() && Indexed(st.hosts, st.nodeIPs) && node in st.nodeIPs && egressIP !in st.nodeIPs[node]
      modifies this`egressIPs, this`changedEgressIPs, this`changedNamespaces, this`st
      ensures Linked() && NodeAdded(old(st), st, node, egressIP)
    {
      ghost var s' := LinkNodeAdded(egressIPs, nodeStore, nsStore, changedEgressIPs, changedNamespaces, st, egressIP,
                                    node);
      var eg := EntryOf(egressIPs, egressIP);
      egressIPs := egressIPs[egressIP := eg.(nodes := eg.nodes + [node])];
      EgressIPChanged(egressIP);
      st := s';
    }

    method DeleteNodeEgressIP(node: NodeId, egressIP: string)
      requires Linked() && Indexed(st.hosts, st.nodeIPs)
      modifies this`egressIPs, this`changedEgressIPs, this`changedNamespaces, this`st
      ensures Linked()
      ensures if node in HostsOf(old(st), egressIP)
              then node in old(st).nodeIPs && egressIP in old(st).users && NodeRemoved(old(st), st, node, egressIP)
              else unchanged(this)
    {
      if egressIP !in egressIPs {
        return;
      }
      var eg := egressIPs[egressIP];
      assert Shows(eg, st.hosts[egressIP], st.users[egressIP], st.assignee[egressIP]);
      for i := 0 to |eg.nodes|
        invariant node !in eg.nodes[..i]
        invariant unchanged(this)
      {
        if eg.nodes[i] == node {
          ghost var s' := LinkNodeRemoved(egressIPs, nodeStore, nsStore, changedEgressIPs, changedNamespaces, st,
                                          egressIP, i);
          EgressIPChanged(egressIP);
          egressIPs := egressIPs[egressIP := eg.(nodes := RemoveAt(eg.nodes, i))];
          st := s';
          return;
        }
      }
    }

    method AddNamespaceEgressIP(ns: VNID, egressIP: string)
      requires Linked() && Indexed(st.users, st.spaceIPs) && ns in st.spaceIPs && egressIP !in st.spaceIPs[ns]
      modifies this`egressIPs, this`changedEgressIPs, this`changedNamespaces, this`st
      ensures Linked() && SpaceAdded(old(st), st, ns, egressIP)
    {
      ghost var s' := LinkSpaceAdded(egressIPs, nodeStore, nsStore, changedEgressIPs, changedNamespaces, st, egressIP,
                                     ns);
      var eg := EntryOf(egressIPs, egressIP);
      egressIPs := egressIPs[egressIP := eg.(namespaces := eg.namespaces + [ns])];
      EgressIPChanged(egressIP);
      st := s';
    }

    method DeleteNamespaceEgressIP(ns: VNID, egressIP: string)
      requires Linked() && Indexed(st.users, st.spaceIPs)
      modifies this`egressIPs, this`changedEgressIPs, this`changedNamespaces, this`st
      ensures Linked()
      ensures if ns in UsersOf(old(st), egressIP)
              then ns in old(st).spaceIPs && SpaceRemoved(old(st), st, ns, egressIP)
              else unchanged(this)
    {
      if egressIP !in egressIPs {
        return;
      }
      var eg := egressIPs[egressIP];
      assert Shows(eg, st.hosts[egressIP], st.users[egressIP], st.assignee[egressIP]);
      for i := 0 to |eg.namespaces|
        invariant ns !in eg.namespaces[..i]
        invariant unchanged(this)
      {
        if eg.namespaces[i] == ns {
          ghost var s' := LinkSpaceRemoved(egressIPs, nodeStore, nsStore, changedEgressIPs, changedNamespaces, st,
                                           egressIP, i);
          EgressIPChanged(egressIP);
          egressIPs := egressIPs[egressIP := eg.(namespaces := RemoveAt(eg.namespaces, i))];
          st := s';
          return;
        }
      }
    }

    // ---- synchronising -----------------------------------------------------------

    method EgressIPActive(egressIP: string) returns (active: bool)
      requires Linked() && Static(st) && Settled(st, {}) && egressIP in egressIPs
      ensures active == Active(st, egressIP)
    {
      var eg := egressIPs[egressIP];
      CountsAre(egressIPs, nodeStore, nsStore, changedEgressIPs, changedNamespaces, st, egressIP);
      if |eg.nodes| == 0 || |eg.namespaces| == 0 {
        return false;
      }
      if |eg.nodes| > 1 {
        return false;
      }
      if |eg.namespaces| > 1 {
        return false;
      }
      SoleUser(egressIPs, nodeStore, nsStore, changedEgressIPs, changedNamespaces, st, egressIP);
      var req := nsStore[eg.namespaces[0]].requestedIPs;
      for i := 0 to |req|
        invariant forall j | 0 <= j < i :: !Crowds(egressIPs, egressIP, req[j])
      {
        if Crowds(egressIPs, egressIP, req[i]) {
          CrowdedIsInactive(egressIPs, nodeStore, nsStore, changedEgressIPs, changedNamespaces, st, egressIP, req[i]);
          return false;
        }
      }
      UncrowdedIsActive(egressIPs, nodeStore, nsStore, changedEgressIPs, changedNamespaces, st, egressIP);
      return true;
    }

    method SyncEgressNodeState(egressIP: string, active: bool) returns (ghost n: NodeId, ghost o: VNID)
      requires Linked() && Static(st) && Holds(st) && egressIP in egressIPs && active == Active(st, egressIP)
      modifies this`egressIPs, this`st, this`trace, this`updateEgressCIDRs
      ensures Linked() && egressIP in old(st).hosts && Fronts(old(st), egressIP, n, o)
      ensures NodeSync(old(st), st, egressIP, active, n, o)
      ensures egressIPs.Keys == old(egressIPs).Keys && Continues(old(trace), trace, {egressIP}, false)
      ensures updateEgressCIDRs == (old(updateEgressCIDRs) || AssigneeOf(st, egressIP) == "")
    {
      hide Continues;
      ContinuesSame(trace, {egressIP});
      var eg := egressIPs[egressIP];
      assert Held(st, egressIP);
      n, o := 0, 0;
      if active {
        FrontsAre(egressIPs, nodeStore, nsStore, changedEgressIPs, changedNamespaces, st, egressIP);
        n, o := eg.nodes[0], eg.namespaces[0];
      }
      if active && eg.assignedNodeIP != nodeStore[eg.nodes[0]].nodeIP {
        Claim(egressIP, eg.namespaces[0], nodeStore[eg.nodes[0]].nodeIP);
      } else if !active && eg.assignedNodeIP != "" {
        Release(egressIP);
      }
      if egressIPs[egressIP].assignedNodeIP == "" {
        updateEgressCIDRs := true;
      }
    }

    /** Assigns the address and tells the watcher. */
    method Claim(egressIP: string, vnid: VNID, nodeIP: string)
      requires Linked() && egressIP in egressIPs && egressIP !in st.view.held
      modifies this`egressIPs, this`st, this`trace
      ensures Linked() && SameTables(old(st), st) && st.active == old(st).active
      ensures st.assignee == old(st).assignee[egressIP := nodeIP]
      ensures st.view == Apply(old(st).view, ClaimEgressIP(vnid, egressIP, nodeIP))
      ensures egressIPs.Keys == old(egressIPs).Keys && egressIPs[egressIP].assignedNodeIP == nodeIP
      ensures trace == old(trace) + [ClaimEgressIP(vnid, egressIP, nodeIP)]
      ensures Continues(old(trace), trace, {egressIP}, false)
    {
      hide Continues;
      var c := ClaimEgressIP(vnid, egressIP, nodeIP);
      ghost var s' := LinkNodeSync(egressIPs, nodeStore, nsStore, changedEgressIPs, changedNamespaces, st, egressIP,
                                   nodeIP, Apply(st.view, c));
      egressIPs := egressIPs[egressIP := egressIPs[egressIP].(assignedNodeIP := nodeIP)];
      RunSnoc(trace, c);
      ContinuesSnoc(trace, c, {egressIP});
      trace := trace + [c];
      st := s';
    }

    method Release(egressIP: string)
      requires Linked() && egressIP in egressIPs
      requires egressIP in st.view.held && st.view.held[egressIP].node == egressIPs[egressIP].assignedNodeIP
      modifies this`egressIPs, this`st, this`trace
      ensures Linked() && SameTables(old(st), st) && st.active == old(st).active
      ensures st.assignee == old(st).assignee[egressIP := ""]
      ensures st.view == Apply(old(st).view, ReleaseEgressIP(egressIP, old(egressIPs)[egressIP].assignedNodeIP))
      ensures egressIPs.Keys == old(egressIPs).Keys && egressIPs[egressIP].assignedNodeIP == ""
      ensures trace == old(trace) + [ReleaseEgressIP(egressIP, old(egressIPs)[egressIP].assignedNodeIP)]
      ensures Continues(old(trace), trace, {egressIP}, false)
    {
      hide Continues;
      var c := ReleaseEgressIP(egressIP, egressIPs[egressIP].assignedNodeIP);
      ghost var s' := LinkNodeSync(egressIPs, nodeStore, nsStore, changedEgressIPs, changedNamespaces, st, egressIP, "",
                                   Apply(st.view, c));
      egressIPs := egressIPs[egressIP := egressIPs[egressIP].(assignedNodeIP := "")];
      RunSnoc(trace, c);
      ContinuesSnoc(trace, c, {egressIP});
      trace := trace + [c];
      st := s';
    }

    method SyncNode(egressIP: string, ghost C: set<string>, ghost N: set<VNID>, ghost D: set<string>)
      requires Linked() && Due(st, C, N, D) && egressIP in C && egressIP !in D
      modifies this`egressIPs, this`st, this`trace, this`updateEgressCIDRs
      ensures Linked() && Due(st, C, N, D + {egressIP}) && Reassigned(old(st), st, egressIP)
      ensures st.changedIPs == old(st).changedIPs && st.changedNs == old(st).changedNs
      ensures Continues(old(trace), trace, {egressIP}, false)
      ensures updateEgressCIDRs == (old(updateEgressCIDRs) || AssigneeOf(st, egressIP) == "")
    {
      hide Continues;
      ghost var s := st;
      var active := EgressIPActive(egressIP);
      ghost var n, o := SyncEgressNodeState(egressIP, active);
      NodeSyncKeepsDue(s, st, C, N, D, egressIP, n, o);
      NodeSyncReassigns(s, st, egressIP, active, n, o);
    }

    /** First pass: every marked address is claimed, released or left, in any order. */
    method SyncNodes(changed: set<string>, ghost N: set<VNID>)
      requires Linked() && Due(st, changed, N, {})
      modifies this`egressIPs, this`st, this`trace, this`updateEgressCIDRs
      ensures Linked() && Due(st, changed, N, changed) && SyncedOnly(old(st), st, changed)
      ensures st.changedIPs == old(st).changedIPs && st.changedNs == old(st).changedNs
      ensures Continues(old(trace), trace, changed, false)
      ensures updateEgressCIDRs == (old(updateEgressCIDRs) || Free(st, changed))
    {
      hide Due, Links, SyncedOnly, Reassigned, Continues, Free, AssigneeOf;
      var todo := changed;
      ghost var done: set<string> := {};
      SyncedOnlyRefl(st, changed);
      ContinuesSame(trace, {});
      NoneFree(st);
      while todo != {}
        invariant done + todo == changed && done !! todo
        invariant Linked() && Due(st, changed, N, done) && SyncedOnly(old(st), st, changed)
        invariant st.changedIPs == old(st).changedIPs && st.changedNs == old(st).changedNs
        invariant Continues(old(trace), trace, done, false)
        invariant updateEgressCIDRs == (old(updateEgressCIDRs) || Free(st, done))
      {
        var ip :| ip in todo;
        ghost var s := st;
        ghost var before := trace;
        SyncNode(ip, changed, N, done);
        ContinuesOn(old(trace), before, trace, done, {ip}, done + {ip}, false, false);
        FreeStep(s, st, ip, done);
        ReassignedOnly(old(st), s, st, ip, changed);
        todo, done := todo - {ip}, done + {ip};
      }
      assert done == changed;
    }

    /** The address a namespace is to use, if any. */
    method ChooseEgressIP(ns: VNID) returns (active: Option<string>)
      requires Linked() && Static(st) && AssignedHosted(st) && ns in nsStore && nsStore[ns].requestedIPs != []
      ensures ns in st.requested
      ensures Choice(st, st.requested[ns]) ==
                if active.Some? then Via(active.value, AssigneeOf(st, active.value)) else Dropped
      ensures active.Some? ==> active.value in egressIPs
    {
      var req := nsStore[ns].requestedIPs;
      active := None;
      for i := 0 to |req|
        invariant active == FirstUsable(st, req[..i], |req| > 1)
        invariant forall j | 0 <= j < i :: !(req[j] in st.users && |st.users[req[j]]| > 1)
        invariant active.Some? ==> active.value in egressIPs
      {
        var ip := req[i];
        assert req[..i + 1] == req[..i] + [ip];
        FirstUsableSnoc(st, req[..i], ip, |req| > 1);
        if ip in egressIPs {
          UsableIs(egressIPs, nodeStore, nsStore, changedEgressIPs, changedNamespaces, st, ip, |req| > 1);
          var eg := egressIPs[ip];
          if |eg.namespaces| > 1 {
            assert ip in req && Contested(st, req);
            return None;
          }
          if active == None {
            if eg.assignedNodeIP == "" {
            } else if |req| > 1 && nodeStore[eg.nodes[0]].offline {
            } else {
              active := Some(ip);
            }
          }
        }
      }
      assert req[..|req|] == req;
      UncontestedChoice(st, req, active);
    }

    method SyncEgressNamespaceState(ns: VNID, ghost C: set<string>)
      requires Linked() && Static(st) && AssignedHosted(st) && ns in st.requested && Remembers(st, ns, C)
      requires Grounded(st, ns, Choice(st, st.requested[ns]))
      modifies this`nsStore, this`st, this`trace
      ensures Linked() && NsSync(old(st), st, ns, Choice(old(st), old(st).requested[ns]))
      ensures Continues(old(trace), trace, {}, false)
    {
      hide Continues, FirstUsable, Contested, AssignedHosted, Static, Run, LinkedNodes;
      ContinuesSame(trace, {});
      if nsStore[ns].requestedIPs == [] {
        if nsStore[ns].activeEgressIP != "" {
          Tell(ns, "", SetNormal(ns));
        }
        return;
      }
      var active := ChooseEgressIP(ns);
      if active.Some? {
        if nsStore[ns].activeEgressIP != active.value {
          Tell(ns, active.value, SetVia(ns, active.value, egressIPs[active.value].assignedNodeIP));
        }
      } else {
        if nsStore[ns].activeEgressIP != "dropped" {
          Tell(ns, "dropped", SetDropped(ns));
        }
      }
    }

    /** Records what a namespace uses from now on and tells the watcher. */
    method Tell(ns: VNID, tag: string, call: Call)
      requires Linked() && ns in nsStore && Allowed(st.view, call)
      requires !call.ClaimEgressIP? && !call.ReleaseEgressIP? && !call.UpdateEgressCIDRs?
      modifies this`nsStore, this`st, this`trace
      ensures Linked() && SameTables(old(st), st) && st.assignee == old(st).assignee
      ensures st.active == old(st).active[ns := tag] && st.view == Apply(old(st).view, call)
      ensures trace == old(trace) + [call] && nsStore.Keys == old(nsStore).Keys
      ensures Continues(old(trace), trace, {}, false)
    {
      hide Continues;
      ghost var s' := LinkNsSync(egressIPs, nodeStore, nsStore, changedEgressIPs, changedNamespaces, st, ns, tag,
                                 Apply(st.view, call));
      nsStore := nsStore[ns := nsStore[ns].(activeEgressIP := tag)];
      RunSnoc(trace, call);
      ContinuesSnoc(trace, call, {});
      trace := trace + [call];
      st := s';
    }

    method SyncNamespace(ns: VNID, ghost C: set<string>, ghost N: set<VNID>, ghost M: set<VNID>)
      requires Linked() && Announcing(st, C, N, M) && ns in N
      modifies this`nsStore, this`st, this`trace
      ensures Linked() && Announcing(st, C, N, M + {ns}) && Retold(old(st), st, ns)
      ensures st.changedIPs == old(st).changedIPs && st.changedNs == old(st).changedNs
      ensures Continues(old(trace), trace, {}, false) && st.assignee == old(st).assignee
    {
      hide Continues;
      ghost var s := st;
      AnnouncingHosted(st, C, N);
      ChoiceIsGrounded(st, C, N, ns);
      assert Remembers(st, ns, C);
      SyncEgressNamespaceState(ns, C);
      NsSyncKeepsAnnouncing(s, st, C, N, M, ns);
      NsSyncRetells(s, st, ns, Choice(s, s.requested[ns]));
    }

    /** Second pass: every marked namespace is given its route, in any order. */
    method SyncNamespaces(changed: set<VNID>, ghost C: set<string>)
      requires Linked() && Announcing(st, C, changed, {})
      modifies this`nsStore, this`st, this`trace
      ensures Linked() && Announcing(st, C, changed, changed) && SyncedOnly(old(st), st, C)
      ensures st.changedIPs == old(st).changedIPs && st.changedNs == old(st).changedNs
      ensures Continues(old(trace), trace, {}, false) && st.assignee == old(st).assignee
    {
      hide Announcing, Links, SyncedOnly, Retold, Continues;
      var todo := changed;
      ghost var done: set<VNID> := {};
      SyncedOnlyRefl(st, C);
      ContinuesSame(trace, {});
      while todo != {}
        invariant done + todo == changed && done !! todo
        invariant Linked() && Announcing(st, C, changed, done) && SyncedOnly(old(st), st, C)
        invariant st.changedIPs == old(st).changedIPs && st.changedNs == old(st).changedNs
        invariant Continues(old(trace), trace, {}, false) && st.assignee == old(st).assignee
      {
        var ns :| ns in todo;
        ghost var s := st;
        ghost var before := trace;
        SyncNamespace(ns, C, changed, done);
        ContinuesOn(old(trace), before, trace, {}, {}, {}, false, false);
        RetoldOnly(old(st), s, st, ns, C);
        todo, done := todo - {ns}, done + {ns};
      }
      assert done == changed;
    }

    method ForgetIfEmpty(egressIP: string, ghost R: set<string>, ghost C: set<string>)
      requires Linked() && Synced(st, R) && st.changedIPs == {} && Exact(st, C)
      modifies this`egressIPs, this`st
      ensures Linked() && Synced(st, R - {egressIP}) && st.changedIPs == {} && st.changedNs == old(st).changedNs
      ensures st == old(st) || DropIP(old(st), st, egressIP)
      ensures Exact(st, C) && forall x :: AssigneeOf(st, x) == AssigneeOf(old(st), x)
    {
      if egressIP in egressIPs {
        CountsAre(egressIPs, nodeStore, nsStore, changedEgressIPs, changedNamespaces, st, egressIP);
        if |egressIPs[egressIP].namespaces| == 0 && |egressIPs[egressIP].nodes| == 0 {
          ghost var s := st;
          ghost var s' := LinkDropIP(egressIPs, nodeStore, nsStore, changedEgressIPs, changedNamespaces, st, egressIP);
          egressIPs := egressIPs - {egressIP};
          st := s';
          DropIPKeepsSynced(s, st, R, egressIP);
          DropIPKeepsExact(s, st, C, egressIP);
          DropIPKeepsAssignees(s, st, egressIP);
          return;
        }
      }
      KeepIPKeepsSynced(st, R, egressIP);
    }

    /** Third pass: marked addresses that nobody asks for any more are forgotten. */
    method ForgetEmpty(changed: set<string>)
      requires Linked() && Synced(st, changed) && st.changedIPs == {} && st.changedNs == {}
      requires Exact(st, changed)
      modifies this`egressIPs, this`st
      ensures Linked() && Stable(st) && SyncedOnly(old(st), st, changed)
      ensures Exact(st, changed) && forall x :: AssigneeOf(st, x) == AssigneeOf(old(st), x)
    {
      hide Synced, Links, SyncedOnly, DropIP, Exact, AssigneeOf;
      var todo := changed;
      SyncedOnlyRefl(st, changed);
      while todo != {}
        invariant Linked() && Synced(st, todo) && st.changedIPs == {}
        invariant st.changedNs == {} && SyncedOnly(old(st), st, changed)
        invariant Exact(st, changed) && forall x :: AssigneeOf(st, x) == AssigneeOf(old(st), x)
      {
        var ip :| ip in todo;
        ghost var s := st;
        ForgetIfEmpty(ip, todo, changed);
        if st != s {
          DropIPOnly(old(st), s, st, ip, changed);
        }
        todo := todo - {ip};
      }
      SyncedIsStable(st);
    }

    /** Takes the marks out of the tracker. */
    method TakeChanged() returns (changedIPs: set<string>, changedNs: set<VNID>)
      requires Linked() && Due(st, st.changedIPs, st.changedNs, {})
      modifies this`changedEgressIPs, this`changedNamespaces, this`st
      ensures Linked() && Due(st, changedIPs, changedNs, {}) && st.changedIPs == {} && st.changedNs == {}
      ensures changedIPs == old(st).changedIPs && SyncedOnly(old(st), st, changedIPs)
    {
      changedIPs, changedNs := changedEgressIPs, changedNamespaces;
      ghost var s' := LinkUnmark(egressIPs, nodeStore, nsStore, changedEgressIPs, changedNamespaces, st);
      UnmarkOnly(st, s', changedIPs);
      changedEgressIPs, changedNamespaces := {}, {};
      st := s';
    }

    method AnnounceEgressCIDRs()
      requires Run(trace).Some?
      modifies this`updateEgressCIDRs, this`trace
      ensures Run(trace) == Run(old(trace)) && !updateEgressCIDRs
      ensures trace == old(trace) + if old(updateEgressCIDRs) && nodesWithCIDRs > 0 then [UpdateEgressCIDRs] else []
    {
      if updateEgressCIDRs {
        updateEgressCIDRs := false;
        if nodesWithCIDRs > 0 {
          RunSnoc(trace, UpdateEgressCIDRs);
          trace := trace + [UpdateEgressCIDRs];
        }
      }
    }

    /** Synchronises what is marked, and asks for a new allocation, as the last call, iff some
        node has CIDRs and this was wanted or a marked address ends up unassigned. */
    method SyncEgressIPs()
      requires Linked() && Due(st, st.changedIPs, st.changedNs, {})
      modifies this`egressIPs, this`nsStore, this`changedEgressIPs
      modifies this`changedNamespaces, this`updateEgressCIDRs, this`st, this`trace
      ensures Linked() && Stable(st) && SyncedOnly(old(st), st, old(st).changedIPs)
      ensures Exact(st, old(st).changedIPs) && !updateEgressCIDRs
      ensures var asked := nodesWithCIDRs > 0 && (old(updateEgressCIDRs) || Free(st, old(st).changedIPs));
              && Continues(old(trace), trace, old(st).changedIPs, asked)
              && (asked ==> trace != [] && trace[|trace| - 1] == UpdateEgressCIDRs)
    {
      hide Links, Due, Announcing, Synced, Stable, SyncedOnly, Run, Continues, Exact, Free, AssigneeOf;
      ghost var s0 := st;
      var changedIPs, changedNs := TakeChanged();
      ghost var s1 := st;
      SyncNodes(changedIPs, changedNs);
      ghost var s2, t2, asked := st, trace, updateEgressCIDRs && nodesWithCIDRs > 0;
      VisitedIsAnnouncing(s2, changedIPs, changedNs);
      SyncNamespaces(changedNs, changedIPs);
      ghost var s3, t3 := st, trace;
      AnnouncedIsSynced(s3, changedIPs, changedNs);
      AnnouncedIsExact(s3, changedIPs, changedNs);
      ForgetEmpty(changedIPs);
      SyncedOnlyTrans(s0, s1, s2, changedIPs);
      SyncedOnlyTrans(s0, s2, s3, changedIPs);
      SyncedOnlyTrans(s0, s3, st, changedIPs);
      SameAssignees(s2, s3);
      FreeSame(s2, st, changedIPs);
      AnnounceEgressCIDRs();
      if asked { ContinuesSnoc(t3, UpdateEgressCIDRs, {}); } else { ContinuesSame(t3, {}); assert t3 + [] == t3; }
      ContinuesOn(t2, t3, trace, {}, {}, {}, false, asked);
      ContinuesOn(old(trace), t2, trace, changedIPs, {}, changedIPs, false, asked);
    }

    // ---- namespaces -----------------------------------------------------------------

    method AddNamespaceStep(ns: VNID, ip: string, ghost s0: State, ghost done: set<string>, ghost T: set<string>)
      requires Linked() && Editing(st, {ns}, T + done) && SpaceProgress(s0, st, ns, done, true)
      requires ns in s0.spaceIPs && ip !in s0.spaceIPs[ns] && ip !in T && ip !in done && ip != "" && ip != "dropped"
      modifies this`egressIPs, this`changedEgressIPs, this`changedNamespaces, this`st
      ensures Linked() && Editing(st, {ns}, T + (done + {ip})) && SpaceProgress(s0, st, ns, done + {ip}, true)
    {
      ghost var s := st;
      AddNamespaceEgressIP(ns, ip);
      hide Links, Editing, SpaceProgress;
      SpaceAddedStep(s0, s, st, ns, done, ip, T);
    }

    method AddNamespaceEgressIPs(ns: VNID, ips: set<string>, ghost T: set<string>)
      requires Linked() && Editing(st, {ns}, T) && ns in st.spaceIPs
      requires ips !! st.spaceIPs[ns] && ips !! T && RealIPs(ips)
      modifies this`egressIPs, this`changedEgressIPs, this`changedNamespaces, this`st
      ensures Linked() && Editing(st, {ns}, T + ips) && SpaceProgress(old(st), st, ns, ips, true)
    {
      hide Links, Editing, SpaceProgress;
      var todo := ips;
      ghost var done: set<string> := {};
      assert T + done == T;
      SpaceProgressStart(st, ns, true);
      while todo != {}
        invariant done + todo == ips && done !! todo
        invariant Linked() && Editing(st, {ns}, T + done) && SpaceProgress(old(st), st, ns, done, true)
      {
        var ip :| ip in todo;
        AddNamespaceStep(ns, ip, old(st), done, T);
        todo, done := todo - {ip}, done + {ip};
      }
      assert done == ips;
    }

    method DeleteNamespaceStep(ns: VNID, ip: string, ghost s0: State, ghost done: set<string>, ghost T: set<string>)
      requires Linked() && Editing(st, {ns}, T + done) && SpaceProgress(s0, st, ns, done, false)
      requires ns in s0.spaceIPs && ip in s0.spaceIPs[ns] && ip !in T && ip !in done
      modifies this`egressIPs, this`changedEgressIPs, this`changedNamespaces, this`st
      ensures Linked() && Editing(st, {ns}, T + (done + {ip})) && SpaceProgress(s0, st, ns, done + {ip}, false)
    {
      ghost var s := st;
      assert ip in s.spaceIPs[ns];
      DeleteNamespaceEgressIP(ns, ip);
      hide Links, Editing, SpaceProgress;
      SpaceRemovedStep(s0, s, st, ns, done, ip, T);
    }

    method DeleteNamespaceEgressIPs(ns: VNID, ips: set<string>, ghost T: set<string>)
      requires Linked() && Editing(st, {ns}, T) && ns in st.spaceIPs
      requires ips <= st.spaceIPs[ns] && ips !! T
      modifies this`egressIPs, this`changedEgressIPs, this`changedNamespaces, this`st
      ensures Linked() && Editing(st, {ns}, T + ips) && SpaceProgress(old(st), st, ns, ips, false)
    {
      hide Links, Editing, SpaceProgress;
      var todo := ips;
      ghost var done: set<string> := {};
      assert T + done == T;
      SpaceProgressStart(st, ns, false);
      while todo != {}
        invariant done + todo == ips && done !! todo
        invariant Linked() && Editing(st, {ns}, T + done) && SpaceProgress(old(st), st, ns, done, false)
      {
        var ip :| ip in todo;
        DeleteNamespaceStep(ns, ip, old(st), done, T);
        todo, done := todo - {ip}, done + {ip};
      }
      assert done == ips;
    }

    method AddNodeStep(node: NodeId, ip: string, ghost s0: State, ghost done: set<string>, ghost T: set<string>)
      requires Linked() && Editing(st, {}, T + done) && NodeProgress(s0, st, node, done, true)
      requires node in s0.nodeIPs && ip !in s0.nodeIPs[node] && ip !in T && ip !in done && ip != "" && ip != "dropped"
      modifies this`egressIPs, this`changedEgressIPs, this`changedNamespaces, this`st
      ensures Linked() && Editing(st, {}, T + (done + {ip})) && NodeProgress(s0, st, node, done + {ip}, true)
    {
      ghost var s := st;
      AddNodeEgressIP(node, ip);
      hide Links, Editing, NodeProgress;
      NodeAddedStep(s0, s, st, node, done, ip, T);
    }

    method AddNodeEgressIPs(node: NodeId, ips: set<string>, ghost T: set<string>)
      requires Linked() && Editing(st, {}, T) && node in st.nodeIPs
      requires ips !! st.nodeIPs[node] && ips !! T && RealIPs(ips)
      modifies this`egressIPs, this`changedEgressIPs, this`changedNamespaces, this`st
      ensures Linked() && Editing(st, {}, T + ips) && NodeProgress(old(st), st, node, ips, true)
    {
      hide Links, Editing, NodeProgress;
      var todo := ips;
      ghost var done: set<string> := {};
      assert T + done == T;
      NodeProgressStart(st, node, true);
      while todo != {}
        invariant done + todo == ips && done !! todo
        invariant Linked() && Editing(st, {}, T + done) && NodeProgress(old(st), st, node, done, true)
      {
        var ip :| ip in todo;
        AddNodeStep(node, ip, old(st), done, T);
        todo, done := todo - {ip}, done + {ip};
      }
      assert done == ips;
    }

    method DeleteNodeStep(node: NodeId, ip: string, ghost s0: State, ghost done: set<string>, ghost T: set<string>)
      requires Linked() && Editing(st, {}, T + done) && NodeProgress(s0, st, node, done, false)
      requires node in s0.nodeIPs && ip in s0.nodeIPs[node] && ip !in T && ip !in done
      modifies this`egressIPs, this`changedEgressIPs, this`changedNamespaces, this`st
      ensures Linked() && Editing(st, {}, T + (done + {ip})) && NodeProgress(s0, st, node, done + {ip}, false)
      ensures st.assignee == old(st).assignee && st.hosts == old(st).hosts[ip := HostsOf(old(st), ip) - {node}]
    {
      ghost var s := st;
      assert ip in s.nodeIPs[node];
      DeleteNodeEgressIP(node, ip);
      hide Links, Editing, NodeProgress;
      NodeRemovedStep(s0, s, st, node, done, ip, T);
    }

    method DeleteNodeEgressIPs(node: NodeId, ips: set<string>, ghost T: set<string>)
      requires Linked() && Editing(st, {}, T) && node in st.nodeIPs
      requires ips <= st.nodeIPs[node] && ips !! T
      modifies this`egressIPs, this`changedEgressIPs, this`changedNamespaces, this`st
      ensures Linked() && Editing(st, {}, T + ips) && NodeProgress(old(st), st, node, ips, false)
    {
      hide Links, Editing, NodeProgress;
      var todo := ips;
      ghost var done: set<string> := {};
      assert T + done == T;
      NodeProgressStart(st, node, false);
      while todo != {}
        invariant done + todo == ips && done !! todo
        invariant Linked() && Editing(st, {}, T + done) && NodeProgress(old(st), st, node, done, false)
      {
        var ip :| ip in todo;
        DeleteNodeStep(node, ip, old(st), done, T);
        todo, done := todo - {ip}, done + {ip};
      }
      assert done == ips;
    }

    method MarkOne(ip: string, ghost s0: State, ghost done: set<string>, ghost X: set<VNID>)
      requires Linked() && Pending(st, X) && MarkProgress(s0, st, done)
      modifies this`changedEgressIPs, this`changedNamespaces, this`st
      ensures Linked() && Pending(st, X) && MarkProgress(s0, st, done + {ip})
    {
      ghost var s := st;
      if ip in egressIPs {
        Touch(ip);
        MarkStep(s0, s, st, done, ip, X);
      } else {
        MarkSkip(s0, st, done, ip);
      }
    }

    method MarkAll(ips: set<string>, ghost X: set<VNID>)
      requires Linked() && Pending(st, X)
      modifies this`changedEgressIPs, this`changedNamespaces, this`st
      ensures Linked() && Pending(st, X) && MarkProgress(old(st), st, ips)
    {
      hide Links, Pending, MarkProgress;
      var todo := ips;
      ghost var done: set<string> := {};
      MarkProgressStart(st);
      while todo != {}
        invariant done + todo == ips && done !! todo
        invariant Linked() && Pending(st, X) && MarkProgress(old(st), st, done)
      {
        var ip :| ip in todo;
        MarkOne(ip, old(st), done, X);
        todo, done := todo - {ip}, done + {ip};
      }
      assert done == ips;
    }

    method AddNamespace(vnid: VNID)
      requires Linked() && Stable(st) && vnid !in st.requested
      modifies this`nsStore, this`st
      ensures Linked() && Stable(st) && NewSpace(old(st), st, vnid)
    {
      ghost var s' := LinkNewSpace(egressIPs, nodeStore, nsStore, changedEgressIPs, changedNamespaces, st, vnid);
      NewSpaceStable(st, s', vnid);
      nsStore := nsStore[vnid := NamespaceEgress([], "")];
      st := s';
    }

    method SetRequestedIPs(vnid: VNID, ips: seq<string>)
      requires Linked() && Stable(st) && vnid in st.requested
      modifies this`nsStore, this`st
      ensures Linked() && Editing(st, {vnid}, {}) && Requests(old(st), st, vnid, ips)
    {
      ghost var s' := LinkRequests(egressIPs, nodeStore, nsStore, changedEgressIPs, changedNamespaces, st, vnid, ips);
      RequestIsPending(st, s', vnid, ips);
      nsStore := nsStore[vnid := nsStore[vnid].(requestedIPs := ips)];
      st := s';
    }

    method DropNamespace(vnid: VNID)
      requires Linked() && Stable(st) && vnid in st.requested && st.requested[vnid] == []
      modifies this`nsStore, this`st
      ensures Linked() && Stable(st) && DropSpace(old(st), st, vnid)
    {
      ghost var s' := LinkDropSpace(egressIPs, nodeStore, nsStore, changedEgressIPs, changedNamespaces, st, vnid);
      DropSpaceStable(st, s', vnid);
      nsStore := nsStore - {vnid};
      st := s';
    }

    /** Moves the listing of a namespace from `oldIPs` to its request `ips`. */
    method EditRequest(vnid: VNID, ips: seq<string>, oldIPs: set<string>)
      requires Linked() && Editing(st, {vnid}, {}) && vnid in st.requested && st.requested[vnid] == ips
      requires vnid in st.spaceIPs && st.spaceIPs[vnid] == oldIPs && RealIPs(ToSet(ips)) && (ips != [] || oldIPs != {})
      modifies this`egressIPs, this`changedEgressIPs, this`changedNamespaces, this`st
      ensures Linked() && Due(st, st.changedIPs, st.changedNs, {})
      ensures st.requested == old(st).requested && SameNodes(old(st), st)
      ensures st.changedIPs == old(st).changedIPs + oldIPs + ToSet(ips)
    {
      hide Links, Due, Editing, Pending, SpaceProgress, MarkProgress, SameNodes, ToSet;
      ghost var s0 := st;
      var newIPs := ToSet(ips);
      var added, removed := newIPs - oldIPs, oldIPs - newIPs;
      AddNamespaceEgressIPs(vnid, added, {});
      ghost var s1 := st;
      AddedNamespaceIPs(s0, s1, vnid, newIPs, oldIPs);
      DeleteNamespaceEgressIPs(vnid, removed, {} + added);
      ghost var s2 := st;
      EditingIsPending(s2, {vnid}, {} + added + removed);
      MarkAll(newIPs * oldIPs, {vnid});
      NamespaceEditsAreDue(s0, s1, s2, st, vnid, ips);
      DueIsStatic(st, st.changedIPs, st.changedNs);
      EditsKeepSpaces(s0, s1, s2, st, vnid, added, removed, newIPs * oldIPs);
      NamespaceEditsMark(s0, s1, s2, st, vnid, ips);
    }

    method ChangeRequest(vnid: VNID, ips: seq<string>)
      requires Linked() && Stable(st) && vnid in st.requested && vnid in nsStore
      requires RealIPs(ToSet(ips)) && (ips != [] || st.requested[vnid] != [])
      modifies this`egressIPs, this`nsStore, this`changedEgressIPs
      modifies this`changedNamespaces, this`updateEgressCIDRs, this`st, this`trace
      ensures Linked() && Stable(st) && st.requested == old(st).requested[vnid := ips] && SameNodes(old(st), st)
      ensures var ips' := ToSet(old(st).requested[vnid]) + ToSet(ips);
              && Exact(st, ips') && !updateEgressCIDRs
              && Continues(old(trace), trace, ips',
                           nodesWithCIDRs > 0 && (old(updateEgressCIDRs) || Free(st, ips')))
    {
      hide Links, Stable, Editing, Due, SyncedOnly, ToSet, RealIPs, Continues, Exact, Free;
      var oldIPs := ToSet(nsStore[vnid].requestedIPs);
      OldRequest(egressIPs, nodeStore, nsStore, changedEgressIPs, changedNamespaces, st, vnid);
      SetRequestedIPs(vnid, ips);
      EditRequest(vnid, ips, oldIPs);
      ghost var s3 := st;
      SyncEgressIPs();
      SyncedKeeps(s3, st, s3.changedIPs);
      assert s3.changedIPs == oldIPs + ToSet(ips);
    }

    /** Gives a namespace, created on the way if it is new, the request `ips`. */
    method ReplaceRequest(vnid: VNID, ips: seq<string>)
      requires Linked() && Stable(st) && RealIPs(ToSet(ips))
      requires if vnid in st.requested then st.requested[vnid] != [] else ips != []
      modifies this`egressIPs, this`nsStore
      modifies this`changedEgressIPs, this`changedNamespaces, this`updateEgressCIDRs, this`st, this`trace
      ensures Linked() && Stable(st) && Requested(old(st), st, vnid, ips)
      ensures var ips' := ToSet(RequestOf(old(st), vnid)) + ToSet(ips);
              && Exact(st, ips') && !updateEgressCIDRs
              && Continues(old(trace), trace, ips',
                           nodesWithCIDRs > 0 && (old(updateEgressCIDRs) || Free(st, ips')))
    {
      hide Links, Stable, RealIPs, Continues, Exact, Free, AssigneeOf;
      KnownSpaces(egressIPs, nodeStore, nsStore, changedEgressIPs, changedNamespaces, st);
      if vnid !in nsStore {
        AddNamespace(vnid);
        KnownSpaces(egressIPs, nodeStore, nsStore, changedEgressIPs, changedNamespaces, st);
      }
      ChangeRequest(vnid, ips);
      assert ToSet<string>([]) == {};
      if |ips| == 0 {
        ghost var s := st;
        DropNamespace(vnid);
        DropSpaceKeepsExact(s, st, vnid, ToSet(RequestOf(old(st), vnid)) + ToSet(ips));
        SameAssignees(s, st);
        FreeSame(s, st, ToSet(RequestOf(old(st), vnid)) + ToSet(ips));
      }
      RequestedIs(old(st), st, vnid, ips);
    }

    /** A NetNamespace now requests `ips`; none at all when it was deleted. */
    method UpdateNetNamespaceEgress(vnid: VNID, ips: seq<string>)
      requires Valid() && RealIPs(ToSet(ips))
      modifies this`egressIPs, this`namespacesByVNID, this`nsStore
      modifies this`changedEgressIPs, this`changedNamespaces, this`updateEgressCIDRs, this`st, this`trace
      ensures Valid() && Requested(old(st), st, vnid, ips)
      ensures RequestIsExact(st, ips)
      ensures var ips' := ToSet(RequestOf(old(st), vnid)) + ToSet(ips);
              && (forall ip | ip in ips' :: AssignedIff(st, ip))
              && Continues(old(trace), trace, ips',
                           SomeCIDRs(nodes, nodeStore) && ips' != {} && (old(updateEgressCIDRs) || Free(st, ips')))
              && updateEgressCIDRs == (ips' == {} && old(updateEgressCIDRs))
    {
      hide Links, Stable, NodesRegistered, ToSet, RealIPs, Continues, Exact, Free, AssignedIff, RequestIsExact,
           SomeCIDRs;
      EmptyToSet(RequestOf(st, vnid));
      EmptyToSet(ips);
      if vnid !in namespacesByVNID {
        if |ips| == 0 {
          NoRequest(st, vnid);
          ContinuesSame(trace, ToSet(RequestOf(st, vnid)) + ToSet(ips));
          NothingExact(st);
          return;
        }
        namespacesByVNID := namespacesByVNID + {vnid};
      } else if |ips| == 0 {
        namespacesByVNID := namespacesByVNID - {vnid};
      }
      ReplaceRequest(vnid, ips);
      RequestedRegisters(old(namespacesByVNID), old(st), st, vnid, ips);
      CountIsSome(nodes, nodesByNodeIP, nodeStore, st.nodeIPs, nextNode, nodesWithCIDRs);
      ghost var ips' := ToSet(RequestOf(old(st), vnid)) + ToSet(ips);
      ExactIsAssigned(st, ips');
      if |ips| == 0 {
        NothingExact(st);
      } else {
        ExactPart(st, ips', ToSet(ips));
        ExactRequest(st, vnid, ips);
      }
    }

    // ---- nodes -----------------------------------------------------------------------

    method TurnOffline(node: NodeId, offline: bool)
      requires Linked() && Stable(st) && node in nodeStore && node in st.nodeIPs
      modifies this`nodeStore, this`st
      ensures Linked() && GoesOffline(old(st), st, node, offline) && Pending(st, Dependents(old(st), node))
      ensures nodeStore == old(nodeStore)[node := old(nodeStore)[node].(offline := offline)]
    {
      ghost var s' := LinkOffline(egressIPs, nodeStore, nsStore, changedEgressIPs, changedNamespaces, st, node,
                                  offline);
      OfflineIsPending(st, s', node, offline);
      nodeStore := nodeStore[node := nodeStore[node].(offline := offline)];
      st := s';
    }

    method SyncOffline(node: NodeId, offline: bool)
      requires Linked() && Stable(st) && node in nodeStore && node in st.nodeIPs
      requires nodeStore[node].requestedIPs == st.nodeIPs[node]
      modifies this`nodeStore, this`egressIPs, this`nsStore
      modifies this`changedEgressIPs, this`changedNamespaces, this`updateEgressCIDRs, this`st, this`trace
      ensures st.requested == old(st).requested && st.nodeIPs == old(st).nodeIPs && st.nodeIP == old(st).nodeIP
      ensures Linked() && Stable(st) && Exact(st, st.nodeIPs[node]) && !updateEgressCIDRs
      ensures var asked := nodesWithCIDRs > 0 && (old(updateEgressCIDRs) || nodeStore[node].requestedCIDRs != {}
                                                  || Free(st, st.nodeIPs[node]));
              Continues(old(trace), trace, st.nodeIPs[node], asked)
      ensures st.offline == old(st).offline[node := offline]
      ensures nodeStore == old(nodeStore)[node := old(nodeStore)[node].(offline := offline)]
    {
      hide Links, Stable, Pending, Due, SyncedOnly, MarkProgress, GoesOffline, Exact, Free, Continues;
      ghost var s0 := st;
      TurnOffline(node, offline);
      ghost var s1 := st;
      MarkAll(nodeStore[node].requestedIPs, Dependents(s0, node));
      OfflineIsDue(s0, s1, st, node, offline);
      OfflineKeeps(s0, s1, st, node, offline);
      if nodeStore[node].requestedCIDRs != {} {
        updateEgressCIDRs := true;
      }
      ghost var s2 := st;
      SyncEgressIPs();
      SyncedKeeps(s2, st, s2.changedIPs);
    }

    method SetNodeOffline(nodeIP: string, offline: bool)
      requires Valid()
      modifies this`nodeStore, this`egressIPs, this`nsStore
      modifies this`changedEgressIPs, this`changedNamespaces, this`updateEgressCIDRs, this`st, this`trace
      ensures Valid()
      ensures st.requested == old(st).requested && st.nodeIPs == old(st).nodeIPs && st.nodeIP == old(st).nodeIP
      ensures st.offline ==
                if nodeIP in nodesByNodeIP then old(st).offline[nodesByNodeIP[nodeIP] := offline] else old(st).offline
      ensures if nodeIP in nodesByNodeIP
              then var n := nodesByNodeIP[nodeIP];
                   n in old(nodeStore) && nodeStore == old(nodeStore)[n := old(nodeStore)[n].(offline := offline)]
              else nodeStore == old(nodeStore)
      ensures if nodeIP in nodesByNodeIP
              then var n := nodesByNodeIP[nodeIP];
                   && n in st.nodeIPs && n in nodeStore && (forall ip | ip in st.nodeIPs[n] :: AssignedIff(st, ip))
                   && !updateEgressCIDRs
                   && Continues(old(trace), trace, st.nodeIPs[n],
                                && SomeCIDRs(nodes, nodeStore)
                                && (old(updateEgressCIDRs) || nodeStore[n].requestedCIDRs != {}
                                    || Free(st, st.nodeIPs[n])))
              else trace == old(trace) && updateEgressCIDRs == old(updateEgressCIDRs)
    {
      hide Links, Stable, NodesRegistered, SpacesRegistered, Exact, Free, Continues, SomeCIDRs, AssignedIff;
      if nodeIP !in nodesByNodeIP {
        return;
      }
      var node := nodesByNodeIP[nodeIP];
      KnownNode(nodes, nodesByNodeIP, nodeStore, st.nodeIPs, nextNode, nodesWithCIDRs, nodeIP);
      OfflineRegisters(nodes, nodesByNodeIP, nodeStore, st.nodeIPs, nextNode, nodesWithCIDRs, node, offline);
      SyncOffline(node, offline);
      ExactIsAssigned(st, st.nodeIPs[node]);
      CountIsSome(nodes, nodesByNodeIP, nodeStore, st.nodeIPs, nextNode, nodesWithCIDRs);
    }

    method DetachIfAssigned(node: NodeId, ip: string, ghost s0: State, moved: set<string>) returns (moved': set<string>)
      requires Linked() && Stable(s0) && Detached(s0, st, node, moved) && node in nodeStore
      requires node in s0.nodeIPs && node in s0.nodeIP && nodeStore[node].nodeIP == s0.nodeIP[node]
      requires ip in s0.nodeIPs[node] && ip !in moved
      modifies this`egressIPs, this`changedEgressIPs, this`changedNamespaces, this`st
      ensures Linked() && Detached(s0, st, node, moved')
      ensures moved' == if ip in Moving(s0, node) then moved + {ip} else moved
    {
      hide Links, Stable, Detached;
      ghost var s := st;
      DetachedListed(s0, st, node, moved, ip);
      DetachedAssignee(s0, st, node, moved);
      TableAssignee(egressIPs, nodeStore, nsStore, changedEgressIPs, changedNamespaces, st, ip);
      moved' := moved;
      if ip in egressIPs && egressIPs[ip].assignedNodeIP == nodeStore[node].nodeIP {
        moved' := moved + {ip};
        DeleteNodeEgressIP(node, ip);
        DetachStep(s0, s, st, node, moved, ip);
      }
    }

    /** Takes the addresses assigned to a node off it. */
    method DetachAssigned(node: NodeId) returns (moved: set<string>)
      requires Linked() && Stable(st) && node in nodeStore && node in st.nodeIPs && node in st.nodeIP
      requires nodeStore[node].requestedIPs == st.nodeIPs[node] && nodeStore[node].nodeIP == st.nodeIP[node]
      modifies this`egressIPs, this`changedEgressIPs, this`changedNamespaces, this`st
      ensures Linked() && moved == Moving(old(st), node) && Detached(old(st), st, node, moved)
    {
      hide Links, Stable, Detached;
      ghost var s0 := st;
      ghost var seen: set<string> := {};
      var todo := nodeStore[node].requestedIPs;
      moved := {};
      DetachedStart(st, node);
      while todo != {}
        invariant seen + todo == s0.nodeIPs[node] && seen !! todo
        invariant moved == Moving(s0, node) * seen
        invariant Linked() && Detached(s0, st, node, moved)
      {
        var ip :| ip in todo;
        moved := DetachIfAssigned(node, ip, s0, moved);
        todo, seen := todo - {ip}, seen + {ip};
      }
    }

    method ReattachOne(node: NodeId, ip: string, ghost s0: State, ghost done: set<string>)
      requires Linked() && Reattached(s0, st, node, done)
      requires node in s0.nodeIPs && ip !in s0.nodeIPs[node] && ip !in done
      requires ip != "" && ip != "dropped" && AssigneeOf(s0, ip) == ""
      modifies this`egressIPs, this`changedEgressIPs, this`changedNamespaces, this`st
      ensures Linked() && Reattached(s0, st, node, done + {ip})
    {
      hide Links, Reattached;
      ghost var s := st;
      ReattachedReady(s0, st, node, done, ip);
      AddNodeEgressIP(node, ip);
      ReattachStep(s0, s, st, node, done, ip);
    }

    /** Gives the moved addresses back to the renumbered node. */
    method Reattach(node: NodeId, moved: set<string>)
      requires Linked() && Stable(st) && node in st.nodeIPs && moved !! st.nodeIPs[node] && RealIPs(moved)
      requires forall ip | ip in moved :: AssigneeOf(st, ip) == ""
      modifies this`egressIPs, this`changedEgressIPs, this`changedNamespaces, this`st
      ensures Linked() && Reattached(old(st), st, node, moved)
    {
      hide Links, Stable, Reattached, AssigneeOf;
      var todo := moved;
      ghost var done: set<string> := {};
      ReattachedStart(st, node);
      while todo != {}
        invariant done + todo == moved && done !! todo
        invariant Linked() && Reattached(old(st), st, node, done)
      {
        var ip :| ip in todo;
        ReattachOne(node, ip, old(st), done);
        todo, done := todo - {ip}, done + {ip};
      }
      assert done == moved;
    }

    method SetNodeIP(node: NodeId, nodeIP: string)
      requires Linked() && node in nodeStore
      modifies this`nodeStore, this`st
      ensures Linked() && Renumbers(old(st), st, node, nodeIP)
      ensures nodeStore == old(nodeStore)[node := old(nodeStore)[node].(nodeIP := nodeIP)]
    {
      ghost var s' := LinkRenumber(egressIPs, nodeStore, nsStore, changedEgressIPs, changedNamespaces, st, node,
                                   nodeIP);
      nodeStore := nodeStore[node := nodeStore[node].(nodeIP := nodeIP)];
      st := s';
    }

    /** A node keeps its request but takes a new IP: what is assigned to it is
        released first and given back afterwards. */
    method Renumber(node: NodeId, hostIP: string)
      requires Linked() && Stable(st) && node in nodeStore && node in st.nodeIPs && node in st.nodeIP && hostIP != ""
      requires nodeStore[node].requestedIPs == st.nodeIPs[node] && nodeStore[node].nodeIP == st.nodeIP[node]
      modifies this`egressIPs, this`nsStore, this`nodeStore, this`nodesByNodeIP
      modifies this`changedEgressIPs, this`changedNamespaces, this`updateEgressCIDRs, this`st, this`trace
      ensures Linked() && Editing(st, {}, {}) && st.changedIPs == Moving(old(st), node) && !updateEgressCIDRs
      ensures Continues(old(trace), trace, Moving(old(st), node),
                        nodesWithCIDRs > 0 && (old(updateEgressCIDRs) || Moving(old(st), node) != {}))
      ensures NodeUpdated(old(st), st, node, hostIP, old(st).nodeIPs[node])
      ensures nodeStore == old(nodeStore)[node := old(nodeStore)[node].(nodeIP := hostIP)]
      ensures nodesByNodeIP == (old(nodesByNodeIP) - {old(nodeStore)[node].nodeIP})[hostIP := node]
    {
      hide Links, Stable, Editing, Due, SyncedOnly, Detached, Reattached, Renumbers, AssigneeOf, RealIPs, Moving,
           Continues, Free;
      ghost var s0 := st;
      MovingIsReal(st, node);
      var moved := DetachAssigned(node);
      ghost var s1 := st;
      DetachedIsEditing(s0, s1, node, moved);
      DeletedIsDue(s1, moved);
      DetachedMarks(s0, s1, node, moved);
      SyncEgressIPs();
      ghost var s2 := st;
      nodesByNodeIP := nodesByNodeIP - {nodeStore[node].nodeIP};
      SetNodeIP(node, hostIP);
      nodesByNodeIP := nodesByNodeIP[hostIP := node];
      ghost var s3 := st;
      RenumberedState(s0, s1, s2, s3, node, hostIP);
      RenumberedFree(s0, s2, s3, node, hostIP);
      Reattach(node, moved);
      ReattachedIs(s3, st, node, moved);
      StableIsUnmarked(s3);
      assert st.nodeIPs[node] == s0.nodeIPs[node];
    }

    /** Gives a node the request `ips`, and synchronises. */
    method ChangeNodeIPs(node: NodeId, ips: set<string>)
      requires Linked() && Editing(st, {}, {}) && node in nodeStore && node in st.nodeIPs && node in st.nodeIP
      requires nodeStore[node].requestedIPs == st.nodeIPs[node] && RealIPs(ips)
      modifies this`egressIPs, this`nsStore, this`nodeStore
      modifies this`changedEgressIPs, this`changedNamespaces, this`updateEgressCIDRs, this`st, this`trace
      ensures Linked() && Stable(st) && NodeUpdated(old(st), st, node, old(st).nodeIP[node], ips) && !updateEgressCIDRs
      ensures var ips' := old(st).changedIPs + (ips - old(st).nodeIPs[node]) + (old(st).nodeIPs[node] - ips);
              && Exact(st, ips')
              && Continues(old(trace), trace, ips',
                           nodesWithCIDRs > 0 && (old(updateEgressCIDRs) || Free(st, ips')))
      ensures nodeStore == old(nodeStore)[node := old(nodeStore)[node].(requestedIPs := ips)]
    {
      hide Links, Stable, Editing, Due, SyncedOnly, NodeProgress, RealIPs, Exact, Free, Continues;
      ghost var s0 := st;
      var oldIPs := nodeStore[node].requestedIPs;
      LinkNodeRecord(egressIPs, nodeStore, nsStore, changedEgressIPs, changedNamespaces, st, node,
                     nodeStore[node].(requestedIPs := ips));
      nodeStore := nodeStore[node := nodeStore[node].(requestedIPs := ips)];
      var added, removed := ips - oldIPs, oldIPs - ips;
      RealSubset(ips, added);
      AddNodeEgressIPs(node, added, {});
      ghost var s1 := st;
      AddedNodeIPs(s0, s1, node, added);
      DeleteNodeEgressIPs(node, removed, {} + added);
      ghost var s2 := st;
      DeletedIsDue(s2, {} + added + removed);
      SyncEgressIPs();
      ChangedNodeIPs(s0, s1, s2, st, node, ips);
    }

    method NewNode(host: string, hostIP: string) returns (node: NodeId)
      requires Linked() && Stable(st) && nextNode !in nodeStore && hostIP != ""
      modifies this`nodeStore, this`nextNode, this`st
      ensures Linked() && Stable(st) && node == old(nextNode)
      ensures nextNode == node + 1 && EgressOps.NewNode(old(st), st, node, hostIP)
      ensures nodeStore == old(nodeStore)[node := NodeEgress(host, hostIP, {}, {}, false)]
    {
      node := nextNode;
      nextNode := nextNode + 1;
      var r := NodeEgress(host, hostIP, {}, {}, false);
      ghost var s' := LinkNewNode(egressIPs, nodeStore, nsStore, changedEgressIPs, changedNamespaces, st, node, r);
      FreshNode(egressIPs, nodeStore, nsStore, changedEgressIPs, changedNamespaces, st, node);
      NewNodeStable(st, s', node, hostIP);
      nodeStore := nodeStore[node := r];
      st := s';
    }

    method SetCIDRs(node: NodeId, cidrs: set<string>)
      requires Linked() && node in nodeStore
      modifies this`nodeStore, this`nodesWithCIDRs, this`updateEgressCIDRs
      ensures Linked() && nodeStore == old(nodeStore)[node := old(nodeStore)[node].(requestedCIDRs := cidrs)]
      ensures nodesWithCIDRs == old(nodesWithCIDRs)
              - (if old(nodeStore)[node].requestedCIDRs != {} then 1 else 0) + (if cidrs != {} then 1 else 0)
      ensures updateEgressCIDRs == (old(updateEgressCIDRs) || old(nodeStore)[node].requestedCIDRs != cidrs)
    {
      if nodeStore[node].requestedCIDRs != cidrs {
        if cidrs == {} {
          nodesWithCIDRs := nodesWithCIDRs - 1;
        } else if nodeStore[node].requestedCIDRs == {} {
          nodesWithCIDRs := nodesWithCIDRs + 1;
        }
        LinkNodeRecord(egressIPs, nodeStore, nsStore, changedEgressIPs, changedNamespaces, st, node,
                       nodeStore[node].(requestedCIDRs := cidrs));
        nodeStore := nodeStore[node := nodeStore[node].(requestedCIDRs := cidrs)];
        updateEgressCIDRs := true;
      } else {
        assert nodeStore[node := nodeStore[node].(requestedCIDRs := cidrs)] == nodeStore;
      }
    }

    /** A new IP and a new request at once. */
    method RenumberAndChange(node: NodeId, hostIP: string, ips: set<string>)
      requires Linked() && Stable(st) && node in nodeStore && node in st.nodeIPs && node in st.nodeIP
      requires hostIP != "" && hostIP != st.nodeIP[node] && RealIPs(ips)
      requires nodeStore[node].requestedIPs == st.nodeIPs[node] && nodeStore[node].nodeIP == st.nodeIP[node]
      modifies this`egressIPs, this`nsStore, this`nodeStore, this`nodesByNodeIP
      modifies this`changedEgressIPs, this`changedNamespaces, this`updateEgressCIDRs, this`st, this`trace
      ensures Linked() && Stable(st) && NodeUpdated(old(st), st, node, hostIP, ips) && !updateEgressCIDRs
      ensures nodeStore == old(nodeStore)[node := old(nodeStore)[node].(nodeIP := hostIP, requestedIPs := ips)]
      ensures nodesByNodeIP == (old(nodesByNodeIP) - {old(nodeStore)[node].nodeIP})[hostIP := node]
      ensures Exact(st, Differing(old(st), node, ips) + Moving(old(st), node))
      ensures Continues(old(trace), trace, Differing(old(st), node, ips) + Moving(old(st), node),
                        nodesWithCIDRs > 0
                        && (old(updateEgressCIDRs) || Moving(old(st), node) != {}
                            || Free(st, Differing(old(st), node, ips))))
    {
      hide Links, Stable, Editing, RealIPs, Exact, Free, Continues, Moving;
      ghost var differ, move := Differing(st, node, ips), Moving(st, node);
      Renumber(node, hostIP);
      ghost var s1, t1 := st, trace;
      ChangeNodeIPs(node, ips);
      assert s1.changedIPs + (ips - s1.nodeIPs[node]) + (s1.nodeIPs[node] - ips) == move + differ;
      ContinuesOn(old(trace), t1, trace, move, move + differ, differ + move,
                  nodesWithCIDRs > 0 && (old(updateEgressCIDRs) || move != {}),
                  nodesWithCIDRs > 0 && Free(st, move + differ));
      FreeSplit(st, move, differ);
      assert move + differ == differ + move;
      assert st.nodeIPs == old(st).nodeIPs[node := ips];
      assert st.nodeIP == old(st).nodeIP[node := hostIP];
    }

    /** Updates the record of a known node: its CIDRs, its IP and its request. */
    method UpdateNode(node: NodeId, hostIP: string, ips: set<string>, cidrs: set<string>)
      requires Linked() && Stable(st) && node in nodeStore && node in st.nodeIPs
      requires node in st.nodeIP && hostIP != "" && RealIPs(ips)
      requires nodeStore[node].requestedIPs == st.nodeIPs[node] && nodeStore[node].nodeIP == st.nodeIP[node]
      modifies this`egressIPs, this`nsStore, this`nodeStore, this`nodesByNodeIP, this`nodesWithCIDRs
      modifies this`changedEgressIPs, this`changedNamespaces, this`updateEgressCIDRs, this`st, this`trace
      ensures Linked() && Stable(st) && NodeUpdated(old(st), st, node, hostIP, ips) && !updateEgressCIDRs
      ensures Exact(st, Differing(old(st), node, ips) + MovingTo(old(st), node, hostIP))
      ensures Continues(old(trace), trace, Differing(old(st), node, ips) + MovingTo(old(st), node, hostIP),
                        nodesWithCIDRs > 0
                        && (old(updateEgressCIDRs) || old(nodeStore)[node].requestedCIDRs != cidrs
                            || MovingTo(old(st), node, hostIP) != {} || Free(st, Differing(old(st), node, ips))))
      ensures nodeStore ==
                var was := old(nodeStore);
                was[node := was[node].(nodeIP := hostIP, requestedIPs := ips, requestedCIDRs := cidrs)]
      ensures nodesWithCIDRs == old(nodesWithCIDRs)
                                - (if old(nodeStore)[node].requestedCIDRs != {} then 1 else 0)
                                + (if cidrs != {} then 1 else 0)
      ensures nodesByNodeIP == ByIPAfter(old(nodesByNodeIP), node, old(st).nodeIP[node], hostIP)
    {
      hide Links, Stable, Editing, RealIPs, Exact, Free, Continues, Moving;
      SetCIDRs(node, cidrs);
      if nodeStore[node].nodeIP != hostIP {
        RenumberAndChange(node, hostIP, ips);
      } else {
        StableIsEditing(st);
        StableIsUnmarked(st);
        ChangeNodeIPs(node, ips);
        ghost var differ := Differing(old(st), node, ips);
        assert {} + (ips - old(st).nodeIPs[node]) + (old(st).nodeIPs[node] - ips) == differ;
        assert differ + {} == differ;
      }
      assert st.nodeIPs == old(st).nodeIPs[node := ips];
      assert st.nodeIP == old(st).nodeIP[node := hostIP];
    }

    /** Finds or creates the node of a HostSubnet; forgets it when it offers nothing any more. */
    method TrackNode(uid: string, host: string, hostIP: string, gone: bool) returns (node: NodeId)
      requires Valid() && hostIP != "" && (uid in nodes || !gone)
      modifies this`nodeStore, this`nodes, this`nodesByNodeIP, this`nextNode, this`st
      ensures Linked() && Stable(st) && node in nodeStore && node in st.nodeIPs
      ensures node in st.nodeIP && st.requested == old(st).requested
      ensures nodeStore[node].nodeIP == st.nodeIP[node] && (uid in nodes <==> !gone)
      ensures nodes.Keys - {uid} == old(nodes).Keys - {uid}
      ensures Tracking(old(nodes), old(nodesByNodeIP), old(nodeStore), old(st).nodeIPs, old(nextNode),
                       nodes, nodesByNodeIP, nodeStore, st.nodeIPs, nextNode, uid, node)
      ensures Entered(old(Nodes()), uid, hostIP, gone, Nodes(), node)
      ensures nodeStore[node] == RecordOf(old(nodes), old(nodeStore), uid, NodeEgress(host, hostIP, {}, {}, false))
      ensures nodeStore[node].requestedIPs == st.nodeIPs[node] && st.assignee == old(st).assignee
    {
      hide Links, Stable, NodesRegistered, SpacesRegistered, Tracking;
      if uid !in nodes {
        UntrackedFacts(nodes, nodesByNodeIP, nodeStore, st.nodeIPs, nextNode, nodesWithCIDRs, uid, hostIP,
                       NodeEgress(host, hostIP, {}, {}, false));
        node := NewNode(host, hostIP);
        nodes := nodes[uid := node];
        nodesByNodeIP := nodesByNodeIP[hostIP := node];
      } else {
        node := nodes[uid];
        TrackedFacts(nodes, nodesByNodeIP, nodeStore, st.nodeIPs, nextNode, nodesWithCIDRs, uid,
                     NodeIPOf(nodeStore, node));
        if gone {
          nodes := nodes - {uid};
          nodesByNodeIP := nodesByNodeIP - {nodeStore[node].nodeIP};
        }
      }
      FreshNode(egressIPs, nodeStore, nsStore, changedEgressIPs, changedNamespaces, st, node);
    }

    /** A HostSubnet says which addresses and CIDRs its node offers; none at all
        when it was deleted. */
    method UpdateHostSubnetEgress(uid: string, host: string, hostIP: string, ips: seq<string>, cidrs: seq<string>)
      requires Valid() && hostIP != "" && RealIPs(ToSet(ips))
      modifies this`egressIPs, this`nsStore, this`nodeStore
      modifies this`nodes, this`nodesByNodeIP, this`nodesWithCIDRs, this`nextNode
      modifies this`changedEgressIPs, this`changedNamespaces, this`updateEgressCIDRs, this`st, this`trace
      ensures Valid() && st.requested == old(st).requested
      ensures updateEgressCIDRs == (uid !in old(nodes) && ips == [] && cidrs == [] && old(updateEgressCIDRs))
      ensures var was := RecordOf(old(nodes), old(nodeStore), uid, NodeEgress(host, hostIP, {}, {}, false));
              var differ := (ToSet(ips) - was.requestedIPs) + (was.requestedIPs - ToSet(ips));
              var move := if was.nodeIP == hostIP then {} else HeldBy(old(st), was.requestedIPs, was.nodeIP);
              && (forall ip | ip in differ + move :: AssignedIff(st, ip))
              && (uid in nodes ==> nodes[uid] in nodeStore && nodeStore[nodes[uid]] ==
                                     was.(nodeIP := hostIP, requestedIPs := ToSet(ips), requestedCIDRs := ToSet(cidrs)))
              && Continues(old(trace), trace, differ + move,
                           && SomeCIDRs(nodes, nodeStore) && (uid in old(nodes) || ips != [] || cidrs != [])
                           && (old(updateEgressCIDRs) || was.requestedCIDRs != ToSet(cidrs) || move != {}
                               || Free(st, differ)))
      ensures uid in nodes <==> ips != [] || cidrs != []
      ensures NodesKept(old(nodes), old(nodeStore), nodes, nodeStore, uid)
      ensures uid in nodes ==>
                && nodes[uid] in nodeStore && nodeStore[nodes[uid]].nodeIP == hostIP
                && nodeStore[nodes[uid]].requestedIPs == ToSet(ips)
                && nodeStore[nodes[uid]].requestedCIDRs == ToSet(cidrs)
      ensures Nodes() == HostStep(old(Nodes()), uid, hostIP, ips == [] && cidrs == [])
    {
      hide Links, Stable, SpacesRegistered, RealIPs, Free, Continues, SomeCIDRs, AssignedIff, HeldBy;
      var gone := |ips| == 0 && |cidrs| == 0;
      EmptyToSet(ips);
      EmptyToSet(cidrs);
      if uid !in nodes && gone {
        ContinuesSame(trace, {});
        assert (ToSet(ips) - {}) + ({} - ToSet(ips)) + {} == {};
        return;
      }
      UpdateHostSubnet(uid, host, hostIP, ToSet(ips), ToSet(cidrs), gone);
    }

    method UpdateHostSubnet(uid: string, host: string, hostIP: string, ips: set<string>, cidrs: set<string>, gone: bool)
      requires Valid() && hostIP != "" && RealIPs(ips) && (uid in nodes || !gone) && (gone ==> ips == {} && cidrs == {})
      modifies this`egressIPs, this`nsStore, this`nodeStore
      modifies this`nodes, this`nodesByNodeIP, this`nodesWithCIDRs, this`nextNode
      modifies this`changedEgressIPs, this`changedNamespaces, this`updateEgressCIDRs, this`st, this`trace
      ensures Valid() && st.requested == old(st).requested && !updateEgressCIDRs
      ensures var was := RecordOf(old(nodes), old(nodeStore), uid, NodeEgress(host, hostIP, {}, {}, false));
              var differ := (ips - was.requestedIPs) + (was.requestedIPs - ips);
              var move := if was.nodeIP == hostIP then {} else HeldBy(old(st), was.requestedIPs, was.nodeIP);
              && (forall ip | ip in differ + move :: AssignedIff(st, ip))
              && (!gone ==> uid in nodes && nodes[uid] in nodeStore && nodeStore[nodes[uid]] ==
                              was.(nodeIP := hostIP, requestedIPs := ips, requestedCIDRs := cidrs))
              && Continues(old(trace), trace, differ + move,
                           && SomeCIDRs(nodes, nodeStore)
                           && (old(updateEgressCIDRs) || was.requestedCIDRs != cidrs || move != {} || Free(st, differ)))
      ensures uid in nodes <==> !gone
      ensures NodesKept(old(nodes), old(nodeStore), nodes, nodeStore, uid)
      ensures uid in nodes ==>
                && nodes[uid] in nodeStore && nodeStore[nodes[uid]].nodeIP == hostIP
                && nodeStore[nodes[uid]].requestedIPs == ips && nodeStore[nodes[uid]].requestedCIDRs == cidrs
      ensures Nodes() == HostStep(old(Nodes()), uid, hostIP, gone)
    {
      hide Links, Stable, NodesRegistered, SpacesRegistered, RealIPs, NodesKept, Exact, Free, Continues, SomeCIDRs,
           AssignedIff, Moving, HeldBy;
      var node := TrackNode(uid, host, hostIP, gone);
      ghost var before := Nodes();
      ghost var byIP1, store1, nodeIPs1 := nodesByNodeIP, nodeStore, st.nodeIPs;
      ghost var s1 := st;
      UpdateNode(node, hostIP, ips, cidrs);
      MovingIsHeld(old(st), s1, node);
      ExactIsAssigned(st, Differing(s1, node, ips) + MovingTo(s1, node, hostIP));
      hide Tracking;
      RetrackedRegisters(old(nodes), old(nodesByNodeIP), old(nodeStore), old(st).nodeIPs,
                         old(nextNode), old(nodesWithCIDRs),
                         nodes, byIP1, store1, nodeIPs1, nextNode, nodesByNodeIP, nodesWithCIDRs,
                         uid, node, nodeStore[node]);
      CountIsSome(nodes, nodesByNodeIP, nodeStore, st.nodeIPs, nextNode, nodesWithCIDRs);
      EnteredMoves(old(Nodes()), uid, hostIP, gone, before, node, Nodes());
    }

    // ---- automatic allocation ------------------------------------------------------

    ghost function Fleet(covers: (string, string) -> bool): EgressAlloc.Fleet
      reads this
    {
      EgressAlloc.Fleet(egressIPs, nodes, nodeStore, nsStore, covers)
    }

    /** Which node is to host which address.  The caller writes the result to the
        nodes one by one; at no point does an address gain a second host. */
    method ReallocateEgressIPs(covers: (string, string) -> bool)
      returns (a: EgressAlloc.Allocation, ghost again: bool, ghost first: EgressAlloc.Allocation,
               ghost full: EgressAlloc.Allocation)
      requires Valid() && EgressAlloc.UniqueNames(nodes, nodeStore)
      modifies this`updateEgressCIDRs
      ensures Valid() && EgressAlloc.Once(a) && EgressAlloc.Legal(Fleet(covers), a)
      ensures a.Keys == EgressAlloc.Automatic(Fleet(covers))
      ensures forall applied, ip :: EgressAlloc.Safe(Fleet(covers), a, applied, ip)
      ensures updateEgressCIDRs == (old(updateEgressCIDRs) || again)
      ensures !again ==> EgressAlloc.Reallocated(Fleet(covers), {}, a)
      ensures again ==> EgressAlloc.AllCarried(Fleet(covers)) && EgressAlloc.Reallocated(Fleet(covers), {}, first)
                        && EgressAlloc.Fresh(Fleet(covers), full)
      ensures again ==> EgressAlloc.Reallocated(Fleet(covers),
                                                EgressAlloc.AllOn(full, EgressAlloc.Lagging(first, full)), a)
    {
      hide Links, Stable, NodesRegistered, SpacesRegistered, EgressAlloc.UniqueNames, EgressAlloc.WellFormed,
           EgressAlloc.Consistent, EgressAlloc.Once, EgressAlloc.Legal, EgressAlloc.Automatic, EgressAlloc.Safe;
      var f := EgressAlloc.Fleet(egressIPs, nodes, nodeStore, nsStore, covers);
      assert changedEgressIPs == {} && changedNamespaces == {} by { NoMarks(); }
      EgressAlloc.StableFleet(f, nodesByNodeIP, nextNode, nodesWithCIDRs, st);
      var rebalanced;
      a, rebalanced, first, full := EgressAlloc.Reallocate(f);
      if rebalanced {
        updateEgressCIDRs := true;
      }
      again := rebalanced;
      assert f == Fleet(covers);
      forall applied, ip ensures EgressAlloc.Safe(f, a, applied, ip) {
        EgressAlloc.PartialApplicationIsSafe(f, a, applied, ip);
      }
    }

    lemma NoMarks()
      requires Valid()
      ensures changedEgressIPs == {} && changedNamespaces == {}
    {
    }
  }
}
