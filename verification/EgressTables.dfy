/** The tables an EgressIPTracker keeps, and how they stand for a `State`: lists
    stand for sets, records for one entry in each of the state's maps. */
module EgressTables {
  import opened Wrappers
  import opened Watcher
  import opened EgressState
  import opened EgressSync
  import opened EgressOps

  // ---- lists as sets -----------------------------------------------------------

  predicate NoDup<T(==)>(xs: seq<T>) {
    forall i, j | 0 <= i < j < |xs| :: xs[i] != xs[j]
  }

  /** `xs` lists the members of `S`, each once. */
  ghost predicate Lists<T>(xs: seq<T>, S: set<T>) {
    NoDup(xs) && ToSet(xs) == S
  }

  function RemoveAt<T>(xs: seq<T>, i: nat): seq<T>
    requires i < |xs|
  {
    xs[..i] + xs[i + 1..]
  }

  lemma RemoveLists<T>(xs: seq<T>, S: set<T>, i: nat)
    requires Lists(xs, S) && i < |xs|
    ensures Lists(RemoveAt(xs, i), S - {xs[i]})
  {
    var ys := RemoveAt(xs, i);
    forall x | x in S - {xs[i]} ensures x in ys {
      var j :| 0 <= j < |xs| && xs[j] == x;
      assert ys[if j < i then j else j - 1] == x;
    }
  }

  lemma AppendLists<T>(xs: seq<T>, S: set<T>, x: T)
    requires Lists(xs, S) && x !in S
    ensures Lists(xs + [x], S + {x})
  {
  }

  lemma {:induction false} ListsCard<T>(xs: seq<T>, S: set<T>)
    requires Lists(xs, S)
    ensures |S| == |xs|
  {
    if xs != [] {
      var init, last := xs[..|xs| - 1], xs[|xs| - 1];
      assert xs == init + [last];
      assert ToSet(init) == S - {last};
      ListsCard(init, S - {last});
    }
  }

  // ---- the tables have the value `s` -------------------------------------------------

  type IPTable = map<string, EgressIPInfo>
  type NodeTable = map<NodeId, NodeEgress>
  type SpaceTable = map<VNID, NamespaceEgress>

  ghost predicate Shows(eg: EgressIPInfo, hosts: set<NodeId>, users: set<VNID>, at: string) {
    eg.assignedNodeIP == at && Lists(eg.nodes, hosts) && Lists(eg.namespaces, users)
  }

  ghost predicate LinkedIPs(egs: IPTable, hosts: map<string, set<NodeId>>, users: map<string, set<VNID>>,
                            assignee: map<string, string>) {
    && egs.Keys == hosts.Keys == users.Keys == assignee.Keys
    && forall ip {:trigger egs[ip]} | ip in egs :: Shows(egs[ip], hosts[ip], users[ip], assignee[ip])
  }

  ghost predicate LinkedNodes(store: NodeTable, nodeIP: map<NodeId, string>, offline: map<NodeId, bool>) {
    && store.Keys == nodeIP.Keys == offline.Keys
    && forall n {:trigger store[n]} | n in store :: store[n].nodeIP == nodeIP[n] && store[n].offline == offline[n]
  }

  ghost predicate LinkedSpaces(store: SpaceTable, requested: map<VNID, seq<string>>, active: map<VNID, string>) {
    && store.Keys == requested.Keys == active.Keys
    && forall v {:trigger store[v]} | v in store ::
        store[v].requestedIPs == requested[v] && store[v].activeEgressIP == active[v]
  }

  /** The tables and marks of a tracker stand for the state `s`. */
  ghost predicate Links(egs: IPTable, nodes: NodeTable, spaces: SpaceTable, cIPs: set<string>, cNs: set<VNID>,
                        s: State) {
    && LinkedIPs(egs, s.hosts, s.users, s.assignee) && LinkedNodes(nodes, s.nodeIP, s.offline)
    && LinkedSpaces(spaces, s.requested, s.active) && cIPs == s.changedIPs && cNs == s.changedNs
  }

  // ---- each edit of the tables is an edit of the state -----------------------------------

  lemma LinkMark(egs: IPTable, nodes: NodeTable, spaces: SpaceTable, cIPs: set<string>, cNs: set<VNID>, s: State,
                 ip: string)
    returns (s': State)
    requires Links(egs, nodes, spaces, cIPs, cNs, s) && ip in egs
    ensures Marks(s, s', ip)
    ensures Links(egs, nodes, spaces, cIPs + {ip}, cNs + ToSet(egs[ip].namespaces), s')
  {
    s' := s.(changedIPs := s.changedIPs + {ip}, changedNs := s.changedNs + s.users[ip]);
  }

  function EntryOf(egs: IPTable, ip: string): EgressIPInfo {
    if ip in egs then egs[ip] else EgressIPInfo([], [], "")
  }

  lemma LinkIP(egs: IPTable, hosts: map<string, set<NodeId>>, users: map<string, set<VNID>>,
               assignee: map<string, string>,
               ip: string, eg: EgressIPInfo, h: set<NodeId>, u: set<VNID>, a: string)
    requires LinkedIPs(egs, hosts, users, assignee) && Shows(eg, h, u, a)
    ensures LinkedIPs(egs[ip := eg], hosts[ip := h], users[ip := u], assignee[ip := a])
  {
  }

  lemma EntryShows(egs: IPTable, nodes: NodeTable, spaces: SpaceTable, cIPs: set<string>, cNs: set<VNID>, s: State,
                   ip: string)
    requires Links(egs, nodes, spaces, cIPs, cNs, s)
    ensures Shows(EntryOf(egs, ip), HostsOf(s, ip), UsersOf(s, ip), AssigneeOf(s, ip))
  {
  }

  lemma LinkNodeAdded(egs: IPTable, nodes: NodeTable, spaces: SpaceTable, cIPs: set<string>, cNs: set<VNID>, s: State,
                      ip: string, n: NodeId)
    returns (s': State)
    requires Links(egs, nodes, spaces, cIPs, cNs, s) && Indexed(s.hosts, s.nodeIPs)
    requires n in s.nodeIPs && ip !in s.nodeIPs[n]
    ensures NodeAdded(s, s', n, ip)
    ensures var eg := EntryOf(egs, ip);
            Links(egs[ip := eg.(nodes := eg.nodes + [n])], nodes, spaces, cIPs + {ip}, cNs + ToSet(eg.namespaces), s')
  {
    var eg := EntryOf(egs, ip);
    EntryShows(egs, nodes, spaces, cIPs, cNs, s, ip);
    assert n !in HostsOf(s, ip);
    AppendLists(eg.nodes, HostsOf(s, ip), n);
    LinkIP(egs, s.hosts, s.users, s.assignee, ip, eg.(nodes := eg.nodes + [n]), HostsOf(s, ip) + {n}, UsersOf(s, ip),
           AssigneeOf(s, ip));
    s' := s.(hosts := s.hosts[ip := HostsOf(s, ip) + {n}], users := s.users[ip := UsersOf(s, ip)],
             assignee := s.assignee[ip := AssigneeOf(s, ip)], nodeIPs := s.nodeIPs[n := s.nodeIPs[n] + {ip}],
             changedIPs := s.changedIPs + {ip}, changedNs := s.changedNs + UsersOf(s, ip));
  }

  lemma LinkNodeRemoved(egs: IPTable, nodes: NodeTable, spaces: SpaceTable, cIPs: set<string>, cNs: set<VNID>, s: State,
                        ip: string, i: nat)
    returns (s': State)
    requires Links(egs, nodes, spaces, cIPs, cNs, s) && Indexed(s.hosts, s.nodeIPs) && ip in egs && i < |egs[ip].nodes|
    ensures ip in s.hosts && ip in s.users && egs[ip].nodes[i] in s.hosts[ip] && egs[ip].nodes[i] in s.nodeIPs
    ensures NodeRemoved(s, s', egs[ip].nodes[i], ip)
    ensures var eg := egs[ip];
            Links(egs[ip := eg.(nodes := RemoveAt(eg.nodes, i))], nodes, spaces, cIPs + {ip},
                  cNs + ToSet(eg.namespaces), s')
  {
    var eg := egs[ip];
    var n := eg.nodes[i];
    assert Shows(eg, s.hosts[ip], s.users[ip], s.assignee[ip]);
    assert n in s.hosts[ip];
    RemoveLists(eg.nodes, s.hosts[ip], i);
    LinkIP(egs, s.hosts, s.users, s.assignee, ip, eg.(nodes := RemoveAt(eg.nodes, i)), s.hosts[ip] - {n}, s.users[ip],
           s.assignee[ip]);
    assert s.users == s.users[ip := s.users[ip]] && s.assignee == s.assignee[ip := s.assignee[ip]];
    s' := s.(hosts := s.hosts[ip := s.hosts[ip] - {n}], nodeIPs := s.nodeIPs[n := s.nodeIPs[n] - {ip}],
             changedIPs := s.changedIPs + {ip}, changedNs := s.changedNs + s.users[ip]);
  }

  lemma LinkSpaceAdded(egs: IPTable, nodes: NodeTable, spaces: SpaceTable, cIPs: set<string>, cNs: set<VNID>, s: State,
                       ip: string, o: VNID)
    returns (s': State)
    requires Links(egs, nodes, spaces, cIPs, cNs, s) && Indexed(s.users, s.spaceIPs)
    requires o in s.spaceIPs && ip !in s.spaceIPs[o]
    ensures SpaceAdded(s, s', o, ip)
    ensures var eg := EntryOf(egs, ip);
            Links(egs[ip := eg.(namespaces := eg.namespaces + [o])], nodes, spaces, cIPs + {ip},
                  cNs + ToSet(eg.namespaces + [o]), s')
  {
    var eg := EntryOf(egs, ip);
    EntryShows(egs, nodes, spaces, cIPs, cNs, s, ip);
    assert o !in UsersOf(s, ip);
    AppendLists(eg.namespaces, UsersOf(s, ip), o);
    LinkIP(egs, s.hosts, s.users, s.assignee, ip, eg.(namespaces := eg.namespaces + [o]), HostsOf(s, ip),
           UsersOf(s, ip) + {o}, AssigneeOf(s, ip));
    s' := s.(hosts := s.hosts[ip := HostsOf(s, ip)], users := s.users[ip := UsersOf(s, ip) + {o}],
             assignee := s.assignee[ip := AssigneeOf(s, ip)], spaceIPs := s.spaceIPs[o := s.spaceIPs[o] + {ip}],
             changedIPs := s.changedIPs + {ip}, changedNs := s.changedNs + UsersOf(s, ip) + {o});
  }

  lemma LinkSpaceRemoved(egs: IPTable, nodes: NodeTable, spaces: SpaceTable, cIPs: set<string>, cNs: set<VNID>,
                         s: State,
                         ip: string, i: nat)
    returns (s': State)
    requires Links(egs, nodes, spaces, cIPs, cNs, s) && Indexed(s.users, s.spaceIPs)
    requires ip in egs && i < |egs[ip].namespaces|
    ensures ip in s.hosts && ip in s.users && egs[ip].namespaces[i] in s.users[ip]
    ensures egs[ip].namespaces[i] in s.spaceIPs
    ensures SpaceRemoved(s, s', egs[ip].namespaces[i], ip)
    ensures var eg := egs[ip];
            Links(egs[ip := eg.(namespaces := RemoveAt(eg.namespaces, i))], nodes, spaces, cIPs + {ip},
                  cNs + ToSet(eg.namespaces), s')
  {
    var eg := egs[ip];
    var o := eg.namespaces[i];
    assert Shows(eg, s.hosts[ip], s.users[ip], s.assignee[ip]);
    assert o in s.users[ip];
    RemoveLists(eg.namespaces, s.users[ip], i);
    LinkIP(egs, s.hosts, s.users, s.assignee, ip, eg.(namespaces := RemoveAt(eg.namespaces, i)), s.hosts[ip],
           s.users[ip] - {o}, s.assignee[ip]);
    assert s.hosts == s.hosts[ip := s.hosts[ip]] && s.assignee == s.assignee[ip := s.assignee[ip]];
    s' := s.(users := s.users[ip := s.users[ip] - {o}], spaceIPs := s.spaceIPs[o := s.spaceIPs[o] - {ip}],
             changedIPs := s.changedIPs + {ip}, changedNs := s.changedNs + s.users[ip]);
  }

  // ---- what the code reads off the tables -------------------------------------------------

  lemma CountsAre(egs: IPTable, nodes: NodeTable, spaces: SpaceTable, cIPs: set<string>, cNs: set<VNID>, s: State,
                  ip: string)
    requires Links(egs, nodes, spaces, cIPs, cNs, s) && ip in egs
    ensures ip in s.hosts && ip in s.users && ip in s.assignee
    ensures |egs[ip].nodes| == |s.hosts[ip]| && |egs[ip].namespaces| == |s.users[ip]|
    ensures Lists(egs[ip].nodes, s.hosts[ip]) && Lists(egs[ip].namespaces, s.users[ip])
  {
    assert Shows(egs[ip], s.hosts[ip], s.users[ip], s.assignee[ip]);
    ListsCard(egs[ip].nodes, s.hosts[ip]);
    ListsCard(egs[ip].namespaces, s.users[ip]);
  }

  /** The test of `egressIPActive` for one other address: it is hosted by the same single node. */
  predicate Crowds(egs: IPTable, ip: string, other: string)
    requires ip in egs && |egs[ip].nodes| > 0
  {
    other in egs && other != ip && |egs[other].nodes| == 1 && egs[other].nodes[0] == egs[ip].nodes[0]
  }

  lemma SoleUser(egs: IPTable, nodes: NodeTable, spaces: SpaceTable, cIPs: set<string>, cNs: set<VNID>, s: State,
                 ip: string)
    requires Links(egs, nodes, spaces, cIPs, cNs, s) && Static(s) && ip in egs && |egs[ip].namespaces| == 1
    ensures ip in s.users && s.users[ip] == {egs[ip].namespaces[0]}
    ensures egs[ip].namespaces[0] in spaces && egs[ip].namespaces[0] in s.spaceIPs
    ensures egs[ip].namespaces[0] in s.requested
    ensures spaces[egs[ip].namespaces[0]].requestedIPs == s.requested[egs[ip].namespaces[0]]
  {
    CountsAre(egs, nodes, spaces, cIPs, cNs, s, ip);
    assert egs[ip].namespaces[0] in s.users[ip];
  }

  lemma CrowdsIs(egs: IPTable, nodes: NodeTable, spaces: SpaceTable, cIPs: set<string>, cNs: set<VNID>, s: State,
                 ip: string, other: string)
    requires Links(egs, nodes, spaces, cIPs, cNs, s) && ip in egs && |egs[ip].nodes| == 1
    ensures ip in s.hosts
    ensures (Crowds(egs, ip, other) <==> other != ip && other in s.hosts && s.hosts[other] == s.hosts[ip])
  {
    CountsAre(egs, nodes, spaces, cIPs, cNs, s, ip);
    assert s.hosts[ip] == {egs[ip].nodes[0]};
    if other in egs {
      CountsAre(egs, nodes, spaces, cIPs, cNs, s, other);
      if |egs[other].nodes| == 1 {
        assert egs[other].nodes[0] in s.hosts[other];
      }
    }
  }

  lemma CrowdedIsInactive(egs: IPTable, nodes: NodeTable, spaces: SpaceTable, cIPs: set<string>, cNs: set<VNID>,
                          s: State, ip: string, other: string)
    requires Links(egs, nodes, spaces, cIPs, cNs, s) && Static(s) && Settled(s, {}) && ip in egs
    requires |egs[ip].nodes| == 1 && |egs[ip].namespaces| == 1 && egs[ip].namespaces[0] in s.requested
    requires other in s.requested[egs[ip].namespaces[0]] && Crowds(egs, ip, other)
    ensures !Active(s, ip)
  {
    SoleUser(egs, nodes, spaces, cIPs, cNs, s, ip);
    CrowdsIs(egs, nodes, spaces, cIPs, cNs, s, ip, other);
    var o := egs[ip].namespaces[0];
    assert o in s.users[ip] && other in s.spaceIPs[o];
  }

  lemma UncrowdedIsActive(egs: IPTable, nodes: NodeTable, spaces: SpaceTable, cIPs: set<string>, cNs: set<VNID>,
                          s: State, ip: string)
    requires Links(egs, nodes, spaces, cIPs, cNs, s) && Static(s) && Settled(s, {}) && ip in egs
    requires |egs[ip].nodes| == 1 && |egs[ip].namespaces| == 1 && egs[ip].namespaces[0] in s.requested
    requires forall i | 0 <= i < |s.requested[egs[ip].namespaces[0]]| ::
        !Crowds(egs, ip, s.requested[egs[ip].namespaces[0]][i])
    ensures Active(s, ip)
  {
    CountsAre(egs, nodes, spaces, cIPs, cNs, s, ip);
    SoleUser(egs, nodes, spaces, cIPs, cNs, s, ip);
    forall o, other | o in s.users[ip] && o in s.spaceIPs && other in s.spaceIPs[o] && other in s.hosts
      ensures other == ip || s.hosts[other] != s.hosts[ip]
    {
      assert other in s.requested[o];
      CrowdsIs(egs, nodes, spaces, cIPs, cNs, s, ip, other);
    }
  }

  lemma {:induction false} FirstUsableSnoc(s: State, req: seq<string>, ip: string, several: bool)
    ensures FirstUsable(s, req + [ip], several) ==
            var r := FirstUsable(s, req, several);
            if r.Some? then r else if Usable(s, ip, several) then Some(ip) else None
  {
    if req == [] {
      assert ([] + [ip])[1..] == [];
    } else {
      assert (req + [ip])[1..] == req[1..] + [ip];
      FirstUsableSnoc(s, req[1..], ip, several);
    }
  }

  ghost predicate AssignedHosted(s: State) {
    forall ip {:trigger s.assignee[ip]} | ip in s.hosts && ip in s.assignee && s.assignee[ip] != "" ::
        |s.hosts[ip]| == 1
  }

  lemma AnnouncingHosted(s: State, C: set<string>, N: set<VNID>)
    requires Sound(s, C, N) && Visited(s, C)
    ensures AssignedHosted(s)
  {
    forall ip | ip in s.hosts && ip in s.assignee && s.assignee[ip] != "" ensures |s.hosts[ip]| == 1 {
      assert ip !in C ==> InOrder(s, ip);
    }
  }

  /** What the code reads of one requested address. */
  lemma UsableIs(egs: IPTable, nodes: NodeTable, spaces: SpaceTable, cIPs: set<string>, cNs: set<VNID>, s: State,
                 ip: string, several: bool)
    requires Links(egs, nodes, spaces, cIPs, cNs, s) && Static(s) && AssignedHosted(s) && ip in egs
    ensures ip in s.users && |egs[ip].namespaces| == |s.users[ip]|
    ensures egs[ip].assignedNodeIP != "" ==> |egs[ip].nodes| > 0 && egs[ip].nodes[0] in nodes
    ensures Usable(s, ip, several) <==>
              egs[ip].assignedNodeIP != "" && !(several && nodes[egs[ip].nodes[0]].offline)
  {
    CountsAre(egs, nodes, spaces, cIPs, cNs, s, ip);
    assert Shows(egs[ip], s.hosts[ip], s.users[ip], s.assignee[ip]);
    if s.assignee[ip] != "" {
      var n := egs[ip].nodes[0];
      assert n in s.hosts[ip];
      assert s.hosts[ip] == {n};
    }
  }

  /** The namespace's choice, read off the first usable address of an uncontested request. */
  lemma UncontestedChoice(s: State, req: seq<string>, r: Option<string>)
    requires req != [] && !Contested(s, req) && r == FirstUsable(s, req, |req| > 1)
    ensures Choice(s, req) == if r.Some? then Via(r.value, AssigneeOf(s, r.value)) else Dropped
  {
    FirstUsableIsFirst(s, req, |req| > 1);
  }

  // ---- each step of a synchronisation is a step of the state -----------------------------

  /** The lists of an active address begin with its host and its namespace. */
  lemma FrontsAre(egs: IPTable, nodes: NodeTable, spaces: SpaceTable, cIPs: set<string>, cNs: set<VNID>, s: State,
                  ip: string)
    requires Links(egs, nodes, spaces, cIPs, cNs, s) && Static(s) && ip in egs && Active(s, ip)
    ensures |egs[ip].nodes| == 1 && |egs[ip].namespaces| == 1
    ensures egs[ip].nodes[0] in nodes && Fronts(s, ip, egs[ip].nodes[0], egs[ip].namespaces[0])
  {
    assert Shows(egs[ip], s.hosts[ip], s.users[ip], s.assignee[ip]);
    ListsCard(egs[ip].nodes, s.hosts[ip]);
    ListsCard(egs[ip].namespaces, s.users[ip]);
    assert egs[ip].nodes[0] in s.hosts[ip] && egs[ip].namespaces[0] in s.users[ip];
  }

  lemma LinkNodeSync(egs: IPTable, nodes: NodeTable, spaces: SpaceTable, cIPs: set<string>, cNs: set<VNID>, s: State,
                     ip: string, at: string, view: View)
    returns (s': State)
    requires Links(egs, nodes, spaces, cIPs, cNs, s) && ip in egs
    ensures SameTables(s, s') && s'.active == s.active && s'.assignee == s.assignee[ip := at] && s'.view == view
    ensures Links(egs[ip := egs[ip].(assignedNodeIP := at)], nodes, spaces, cIPs, cNs, s')
  {
    assert Shows(egs[ip], s.hosts[ip], s.users[ip], s.assignee[ip]);
    LinkIP(egs, s.hosts, s.users, s.assignee, ip, egs[ip].(assignedNodeIP := at), s.hosts[ip], s.users[ip], at);
    assert s.hosts == s.hosts[ip := s.hosts[ip]] && s.users == s.users[ip := s.users[ip]];
    s' := s.(assignee := s.assignee[ip := at], view := view);
  }

  lemma LinkNsSync(egs: IPTable, nodes: NodeTable, spaces: SpaceTable, cIPs: set<string>, cNs: set<VNID>, s: State,
                   v: VNID, tag: string, view: View)
    returns (s': State)
    requires Links(egs, nodes, spaces, cIPs, cNs, s) && v in spaces
    ensures SameTables(s, s') && s'.assignee == s.assignee && s'.active == s.active[v := tag] && s'.view == view
    ensures Links(egs, nodes, spaces[v := spaces[v].(activeEgressIP := tag)], cIPs, cNs, s')
  {
    s' := s.(active := s.active[v := tag], view := view);
  }

  lemma LinkDropIP(egs: IPTable, nodes: NodeTable, spaces: SpaceTable, cIPs: set<string>, cNs: set<VNID>, s: State,
                   ip: string)
    returns (s': State)
    requires Links(egs, nodes, spaces, cIPs, cNs, s)
    ensures DropIP(s, s', ip) && Links(egs - {ip}, nodes, spaces, cIPs, cNs, s')
  {
    s' := s.(hosts := s.hosts - {ip}, users := s.users - {ip}, assignee := s.assignee - {ip});
  }

  /** Taking the marks out of the tables. */
  lemma LinkUnmark(egs: IPTable, nodes: NodeTable, spaces: SpaceTable, cIPs: set<string>, cNs: set<VNID>, s: State)
    returns (s': State)
    requires Links(egs, nodes, spaces, cIPs, cNs, s) && Due(s, cIPs, cNs, {})
    ensures Links(egs, nodes, spaces, {}, {}, s') && s'.changedIPs == {} && s'.changedNs == {} && s'.view == s.view
    ensures SameIPsButMarks(s, s') && SameNodes(s, s') && SameSpaces(s, s') && Due(s', cIPs, cNs, {})
  {
    s' := s.(changedIPs := {}, changedNs := {});
    UnmarkKeepsDue(s, s', cIPs, cNs);
  }

  ghost predicate SameIPsButMarks(s: State, s': State) {
    s'.hosts == s.hosts && s'.users == s.users && s'.assignee == s.assignee && s'.view == s.view
  }

  lemma UnmarkKeepsDue(s: State, s': State, C: set<string>, N: set<VNID>)
    requires Due(s, C, N, {}) && SameIPsButMarks(s, s') && SameNodes(s, s') && SameSpaces(s, s')
    requires s'.changedIPs == {} && s'.changedNs == {}
    ensures Due(s', C, N, {})
  {
    assert Shape(s');
    forall x | x in s'.hosts && x in s'.users && x in s'.assignee ensures Held(s', x) { assert Held(s, x); }
    UnmarkRest(s, s', C);
    UnmarkRoutes(s, s', N);
  }

  lemma UnmarkRest(s: State, s': State, C: set<string>)
    requires Shape(s) && Shape(s') && RestInOrder(s, C) && SameIPsButMarks(s, s') && SameSpaces(s, s')
    ensures RestInOrder(s', C)
  {
    forall x | x in s'.hosts && x !in C
      ensures InOrder(s', x) && Wanted(s', x)
    {
      assert InOrder(s, x) && Wanted(s, x);
    }
    forall x, y | x in s'.hosts && y in s'.hosts && x !in C && y !in C
      ensures Apart(s', x, y)
    {
      assert Apart(s, x, y);
    }
  }

  lemma UnmarkRoutes(s: State, s': State, N: set<VNID>)
    requires Shape(s) && Shape(s') && RoutesDue(s, N, {})
    requires SameIPsButMarks(s, s') && SameNodes(s, s') && SameSpaces(s, s')
    ensures RoutesDue(s', N, {})
  {
    forall o | o in s'.requested && o !in N ensures Routed(s', o) {
      assert Routed(s, o);
      SameIPsChoice(s, s', s.requested[o]);
    }
    forall o | o in s'.requested ensures Remembers(s', o, {}) { assert Remembers(s, o, {}); }
  }

  /** From `s` to `s'` a synchronisation of the marks `C` got this far: requests
      stayed, addresses outside `C` kept their assignment, some were forgotten. */
  ghost predicate SyncedOnly(s: State, s': State, C: set<string>) {
    && SameNodes(s, s') && s'.requested == s.requested && s'.spaceIPs == s.spaceIPs
    && (forall ip {:trigger s'.hosts[ip]} | ip in s'.hosts :: ip in s.hosts && s'.hosts[ip] == s.hosts[ip])
    && (forall ip {:trigger s'.assignee[ip]} | ip in s'.assignee && ip !in C ::
          ip in s.assignee && s'.assignee[ip] == s.assignee[ip])
  }

  /** Some of the addresses is not assigned. */
  ghost predicate Free(s: State, ips: set<string>) {
    exists ip :: ip in ips && AssigneeOf(s, ip) == ""
  }

  lemma NoneFree(s: State)
    ensures !Free(s, {})
  {
  }

  lemma SameAssignees(s: State, s': State)
    requires s'.assignee == s.assignee
    ensures forall x :: AssigneeOf(s', x) == AssigneeOf(s, x)
  {
  }

  /** Those of the addresses that are assigned to the node IP. */
  ghost function HeldBy(s: State, ips: set<string>, nodeIP: string): set<string> {
    set ip | ip in ips && ip in s.assignee && s.assignee[ip] == nodeIP
  }

  lemma MovingIsHeld(s0: State, s: State, n: NodeId)
    requires n in s.nodeIPs && n in s.nodeIP && s.assignee == s0.assignee
    ensures Moving(s, n) == HeldBy(s0, s.nodeIPs[n], s.nodeIP[n])
  {
  }

  /** The record of a node, or `first` if it is not tracked. */
  function RecordOf(nodes: map<string, NodeId>, store: NodeTable, uid: string, first: NodeEgress): NodeEgress {
    if uid in nodes && nodes[uid] in store then store[nodes[uid]] else first
  }

  lemma FreeSplit(s: State, a: set<string>, b: set<string>)
    ensures Free(s, a + b) <==> Free(s, a) || Free(s, b)
    ensures Free(s, a) ==> a != {}
  {
    if Free(s, a) {
      var x :| x in a && AssigneeOf(s, x) == "";
      assert x in a + b;
    }
    if Free(s, b) {
      var x :| x in b && AssigneeOf(s, x) == "";
      assert x in a + b;
    }
  }

  lemma FreeStep(s: State, s': State, ip: string, done: set<string>)
    requires Reassigned(s, s', ip) && ip !in done
    ensures Free(s', done + {ip}) <==> Free(s, done) || AssigneeOf(s', ip) == ""
  {
    assert forall x | x in done :: AssigneeOf(s', x) == AssigneeOf(s, x);
    if Free(s, done) {
      var x :| x in done && AssigneeOf(s, x) == "";
      assert x in done + {ip} && AssigneeOf(s', x) == "";
    }
    if AssigneeOf(s', ip) == "" { assert ip in done + {ip}; }
  }

  lemma FreeSame(s: State, s': State, ips: set<string>)
    requires forall x | x in ips :: AssigneeOf(s', x) == AssigneeOf(s, x)
    ensures Free(s', ips) <==> Free(s, ips)
  {
    if Free(s, ips) {
      var x :| x in ips && AssigneeOf(s, x) == "";
      assert AssigneeOf(s', x) == "";
    }
  }

  lemma DropIPKeepsAssignees(s: State, s': State, ip: string)
    requires DropIP(s, s', ip) && Shape(s) && ip in s.hosts && s.hosts[ip] == {} && InOrder(s, ip)
    ensures forall x :: AssigneeOf(s', x) == AssigneeOf(s, x)
  {
  }

  /** Visited addresses are assigned exactly when active. */
  lemma AnnouncedIsExact(s: State, C: set<string>, N: set<VNID>)
    requires Announcing(s, C, N, N)
    ensures Exact(s, C)
  {
  }

  /** The address is assigned iff one node offers it and one namespace requests it, and no
      other address that this requests is offered by exactly that node. */
  ghost predicate AssignedIff(s: State, ip: string) {
    ip in s.hosts && ip in s.users && ip in s.assignee ==>
      (s.assignee[ip] != "" <==>
         && |s.hosts[ip]| == 1 && |s.users[ip]| == 1
         && forall v, x | v in s.users[ip] && v in s.requested && x in s.requested[v] && x in s.hosts && x != ip ::
              s.hosts[x] != s.hosts[ip])
  }

  lemma ExactIsAssigned(s: State, C: set<string>)
    requires Stable(s) && Exact(s, C)
    ensures forall ip | ip in C :: AssignedIff(s, ip)
  {
    hide Stable, Active;
    forall ip | ip in C && ip in s.hosts && ip in s.assignee ensures AssignedIff(s, ip) { ActiveMeans(s, ip); }
  }

  /** Each of the addresses of a request is assigned iff one node offers it, nobody else
      requests it, and no other of them is offered by exactly that node. */
  ghost predicate RequestIsExact(s: State, ips: seq<string>) {
    forall ip | ip in ips ::
      && ip in s.hosts && ip in s.users && ip in s.assignee
      && (s.assignee[ip] != "" <==>
            && |s.hosts[ip]| == 1 && |s.users[ip]| == 1
            && forall x | x in ips && x != ip :: x in s.hosts && s.hosts[x] != s.hosts[ip])
  }

  lemma ExactRequest(s: State, v: VNID, ips: seq<string>)
    requires Stable(s) && v in s.requested && s.requested[v] == ips && Exact(s, ToSet(ips))
    ensures RequestIsExact(s, ips)
  {
    hide Active;
    assert s.spaceIPs[v] == ToSet(ips);
    forall ip | ip in ips ensures ip in s.hosts && ip in s.users && ip in s.assignee && v in s.users[ip] {
      assert ip in s.spaceIPs[v];
    }
    ExactIsAssigned(s, ToSet(ips));
    forall ip, w | ip in ips && |s.users[ip]| == 1 && w in s.users[ip] ensures w == v {
      SoleMember(s.users[ip], v, w);
    }
  }

  lemma DropSpaceKeepsExact(s: State, s': State, v: VNID, C: set<string>)
    requires Exact(s, C) && Stable(s) && DropSpace(s, s', v) && v in s.requested && s.requested[v] == []
    ensures Exact(s', C)
  {
    assert s.spaceIPs[v] == {};
    forall ip | ip in s.hosts ensures Active(s', ip) == Active(s, ip) {
      assert v !in s.users[ip];
      ActiveFrame(s, s', ip);
    }
  }

  lemma ActiveFrame(s: State, s': State, ip: string)
    requires s'.hosts == s.hosts && s'.users == s.users && ip in s.users
    requires forall o | o in s.users[ip] ::
               (o in s.spaceIPs <==> o in s'.spaceIPs) && (o in s.spaceIPs ==> s'.spaceIPs[o] == s.spaceIPs[o])
    ensures Active(s', ip) == Active(s, ip)
  {
    assert forall o, other | o in s.users[ip] && o in s.spaceIPs && other in s.hosts ::
        other in s.spaceIPs[o] <==> other in s'.spaceIPs[o];
  }

  lemma EmptyToSet(xs: seq<string>)
    ensures ToSet(xs) == {} <==> xs == []
  {
    if xs != [] { assert xs[0] in ToSet(xs); }
  }

  lemma NothingExact(s: State)
    ensures RequestIsExact(s, [])
  {
  }

  lemma ExactPart(s: State, C: set<string>, D: set<string>)
    requires Exact(s, C) && D <= C
    ensures Exact(s, D)
  {
  }

  /** Some tracked node has CIDRs. */
  ghost predicate SomeCIDRs(nodes: map<string, NodeId>, store: NodeTable) {
    exists u :: u in nodes && nodes[u] in store && store[nodes[u]].requestedCIDRs != {}
  }

  lemma CountIsSome(nodes: map<string, NodeId>, byIP: map<string, NodeId>, store: NodeTable,
                    nodeIPs: map<NodeId, set<string>>, next: NodeId, withCIDRs: int)
    requires NodesRegistered(nodes, byIP, store, nodeIPs, next, withCIDRs)
    ensures withCIDRs > 0 <==> SomeCIDRs(nodes, store)
  {
    var some := WithCIDRs(nodes, store);
    if SomeCIDRs(nodes, store) {
      var u :| u in nodes && nodes[u] in store && store[nodes[u]].requestedCIDRs != {};
      assert u in some;
    }
    if some != {} {
      var u :| u in some;
    }
  }

  lemma SyncedOnlyRefl(s: State, C: set<string>)
    ensures SyncedOnly(s, s, C)
  {
  }

  lemma SyncedOnlyTrans(a: State, b: State, c: State, C: set<string>)
    requires SyncedOnly(a, b, C) && SyncedOnly(b, c, C)
    ensures SyncedOnly(a, c, C)
  {
  }

  lemma UnmarkOnly(s: State, s': State, C: set<string>)
    requires SameIPsButMarks(s, s') && SameNodes(s, s') && SameSpaces(s, s')
    ensures SyncedOnly(s, s', C)
  {
  }

  lemma VisitedIsAnnouncing(s: State, C: set<string>, N: set<VNID>)
    requires Due(s, C, N, C)
    ensures Announcing(s, C, N, {})
  {
  }

  lemma ReassignedOnly(s0: State, s: State, s': State, ip: string, C: set<string>)
    requires SyncedOnly(s0, s, C) && Reassigned(s, s', ip) && ip in C
    ensures SyncedOnly(s0, s', C)
  {
  }

  lemma RetoldOnly(s0: State, s: State, s': State, o: VNID, C: set<string>)
    requires SyncedOnly(s0, s, C) && Retold(s, s', o)
    ensures SyncedOnly(s0, s', C)
  {
  }

  lemma DropIPOnly(s0: State, s: State, s': State, ip: string, C: set<string>)
    requires SyncedOnly(s0, s, C) && DropIP(s, s', ip)
    ensures SyncedOnly(s0, s', C)
  {
  }

  lemma KeepIPKeepsSynced(s: State, R: set<string>, ip: string)
    requires Synced(s, R) && (ip in s.hosts ==> Wanted(s, ip))
    ensures Synced(s, R - {ip})
  {
  }

  // ---- records come, go and change ---------------------------------------------------------

  lemma LinkNewNode(egs: IPTable, nodes: NodeTable, spaces: SpaceTable, cIPs: set<string>, cNs: set<VNID>, s: State,
                    n: NodeId, r: NodeEgress)
    returns (s': State)
    requires Links(egs, nodes, spaces, cIPs, cNs, s) && n !in nodes && !r.offline
    ensures NewNode(s, s', n, r.nodeIP) && Links(egs, nodes[n := r], spaces, cIPs, cNs, s')
  {
    s' := s.(nodeIP := s.nodeIP[n := r.nodeIP], offline := s.offline[n := false], nodeIPs := s.nodeIPs[n := {}]);
  }

  lemma LinkRenumber(egs: IPTable, nodes: NodeTable, spaces: SpaceTable, cIPs: set<string>, cNs: set<VNID>, s: State,
                     n: NodeId, at: string)
    returns (s': State)
    requires Links(egs, nodes, spaces, cIPs, cNs, s) && n in nodes
    ensures Renumbers(s, s', n, at) && Links(egs, nodes[n := nodes[n].(nodeIP := at)], spaces, cIPs, cNs, s')
  {
    s' := s.(nodeIP := s.nodeIP[n := at]);
  }

  lemma LinkOffline(egs: IPTable, nodes: NodeTable, spaces: SpaceTable, cIPs: set<string>, cNs: set<VNID>, s: State,
                    n: NodeId, offline: bool)
    returns (s': State)
    requires Links(egs, nodes, spaces, cIPs, cNs, s) && n in nodes
    ensures GoesOffline(s, s', n, offline)
    ensures Links(egs, nodes[n := nodes[n].(offline := offline)], spaces, cIPs, cNs, s')
  {
    s' := s.(offline := s.offline[n := offline]);
  }

  /** A change of a node record that the state does not see. */
  lemma LinkNodeRecord(egs: IPTable, nodes: NodeTable, spaces: SpaceTable, cIPs: set<string>, cNs: set<VNID>, s: State,
                       n: NodeId, r: NodeEgress)
    requires Links(egs, nodes, spaces, cIPs, cNs, s) && n in nodes
    requires r.nodeIP == nodes[n].nodeIP && r.offline == nodes[n].offline
    ensures Links(egs, nodes[n := r], spaces, cIPs, cNs, s)
  {
  }

  lemma LinkNewSpace(egs: IPTable, nodes: NodeTable, spaces: SpaceTable, cIPs: set<string>, cNs: set<VNID>, s: State,
                     v: VNID)
    returns (s': State)
    requires Links(egs, nodes, spaces, cIPs, cNs, s) && v !in spaces
    ensures NewSpace(s, s', v) && Links(egs, nodes, spaces[v := NamespaceEgress([], "")], cIPs, cNs, s')
  {
    s' := s.(requested := s.requested[v := []], active := s.active[v := ""], spaceIPs := s.spaceIPs[v := {}]);
  }

  lemma LinkDropSpace(egs: IPTable, nodes: NodeTable, spaces: SpaceTable, cIPs: set<string>, cNs: set<VNID>, s: State,
                      v: VNID)
    returns (s': State)
    requires Links(egs, nodes, spaces, cIPs, cNs, s)
    ensures DropSpace(s, s', v) && Links(egs, nodes, spaces - {v}, cIPs, cNs, s')
  {
    s' := s.(requested := s.requested - {v}, active := s.active - {v}, spaceIPs := s.spaceIPs - {v});
  }

  lemma LinkRequests(egs: IPTable, nodes: NodeTable, spaces: SpaceTable, cIPs: set<string>, cNs: set<VNID>, s: State,
                     v: VNID, req: seq<string>)
    returns (s': State)
    requires Links(egs, nodes, spaces, cIPs, cNs, s) && v in spaces
    ensures Requests(s, s', v, req) && Links(egs, nodes, spaces[v := spaces[v].(requestedIPs := req)], cIPs, cNs, s')
  {
    s' := s.(requested := s.requested[v := req]);
  }

  // ---- several edits of one operation ----------------------------------------------------------

  predicate RealIPs(ips: set<string>) {
    "" !in ips && "dropped" !in ips
  }

  /** Only the lists of addresses and the listing of namespace `o` were edited, and marks added. */
  ghost predicate SpaceEdits(s: State, s': State, o: VNID) {
    && SameNodes(s, s') && s'.requested == s.requested && s'.active == s.active && s'.view == s.view
    && s'.spaceIPs.Keys == s.spaceIPs.Keys && (forall p | p in s.spaceIPs && p != o :: s'.spaceIPs[p] == s.spaceIPs[p])
    && s.changedIPs <= s'.changedIPs && s.changedNs <= s'.changedNs
  }

  ghost predicate NodeEdits(s: State, s': State, n: NodeId) {
    && SameSpaces(s, s') && s'.nodeIP == s.nodeIP && s'.offline == s.offline && s'.view == s.view
    && s'.nodeIPs.Keys == s.nodeIPs.Keys && (forall p | p in s.nodeIPs && p != n :: s'.nodeIPs[p] == s.nodeIPs[p])
    && s.changedIPs <= s'.changedIPs && s.changedNs <= s'.changedNs
  }

  ghost predicate Editing(s: State, X: set<VNID>, T: set<string>) {
    Pending(s, X) && Tight(s, T)
  }

  /** The addresses `done` have been added to the listing of `o`, or removed from it. */
  ghost predicate SpaceProgress(s0: State, s: State, o: VNID, done: set<string>, adding: bool) {
    && SpaceEdits(s0, s, o) && o in s0.spaceIPs && done <= s.changedIPs && (done != {} ==> o in s.changedNs)
    && s.spaceIPs[o] == (if adding then s0.spaceIPs[o] + done else s0.spaceIPs[o] - done)
    && s.changedIPs <= s0.changedIPs + done
  }

  ghost predicate NodeProgress(s0: State, s: State, n: NodeId, done: set<string>, adding: bool) {
    && NodeEdits(s0, s, n) && n in s0.nodeIPs && done <= s.changedIPs <= s0.changedIPs + done
    && s.nodeIPs[n] == if adding then s0.nodeIPs[n] + done else s0.nodeIPs[n] - done
  }

  lemma SpaceProgressStart(s: State, o: VNID, adding: bool)
    requires o in s.spaceIPs
    ensures SpaceProgress(s, s, o, {}, adding)
  {
  }

  lemma NodeProgressStart(s: State, n: NodeId, adding: bool)
    requires n in s.nodeIPs
    ensures NodeProgress(s, s, n, {}, adding)
  {
  }

  lemma SpaceAddedStep(s0: State, s: State, s': State, o: VNID, done: set<string>, ip: string, T: set<string>)
    requires Editing(s, {o}, T + done) && SpaceProgress(s0, s, o, done, true)
    requires ip !in s0.spaceIPs[o] && ip !in T && ip !in done
    requires ip != "" && ip != "dropped" && SpaceAdded(s, s', o, ip)
    ensures Editing(s', {o}, T + (done + {ip})) && SpaceProgress(s0, s', o, done + {ip}, true)
  {
    hide Pending, Tight;
    SpaceAddedKeepsPending(s, s', o, ip, T + done);
    assert T + done + {ip} == T + (done + {ip});
  }

  lemma SpaceRemovedStep(s0: State, s: State, s': State, o: VNID, done: set<string>, ip: string, T: set<string>)
    requires Editing(s, {o}, T + done) && SpaceProgress(s0, s, o, done, false)
    requires ip in s0.spaceIPs[o] && ip !in T && ip !in done
    requires ip in s.hosts && ip in s.users && o in s.users[ip] && SpaceRemoved(s, s', o, ip)
    ensures Editing(s', {o}, T + (done + {ip})) && SpaceProgress(s0, s', o, done + {ip}, false)
  {
    hide Pending, Tight;
    SpaceRemovedKeepsPending(s, s', o, ip, T + done);
    assert T + done + {ip} == T + (done + {ip});
  }

  lemma NodeAddedStep(s0: State, s: State, s': State, n: NodeId, done: set<string>, ip: string, T: set<string>)
    requires Editing(s, {}, T + done) && NodeProgress(s0, s, n, done, true)
    requires ip !in s0.nodeIPs[n] && ip !in T && ip !in done
    requires ip != "" && ip != "dropped" && NodeAdded(s, s', n, ip)
    ensures Editing(s', {}, T + (done + {ip})) && NodeProgress(s0, s', n, done + {ip}, true)
  {
    hide Pending, Tight;
    NodeAddedKeepsPending(s, s', n, ip, T + done);
    assert T + done + {ip} == T + (done + {ip});
  }

  lemma NodeRemovedStep(s0: State, s: State, s': State, n: NodeId, done: set<string>, ip: string, T: set<string>)
    requires Editing(s, {}, T + done) && NodeProgress(s0, s, n, done, false)
    requires ip in s0.nodeIPs[n] && ip !in T && ip !in done
    requires ip in s.hosts && ip in s.users && n in s.hosts[ip] && NodeRemoved(s, s', n, ip)
    ensures Editing(s', {}, T + (done + {ip})) && NodeProgress(s0, s', n, done + {ip}, false)
  {
    hide Pending, Tight;
    NodeRemovedKeepsPending(s, s', n, ip, T + done);
    assert T + done + {ip} == T + (done + {ip});
  }

  /** A request of `ns` that was edited in full, and whose addresses are all marked, is due. */
  lemma RequestIsDue(s: State, ns: VNID)
    requires Pending(s, {ns}) && ns in s.requested && s.spaceIPs[ns] == ToSet(s.requested[ns])
    requires s.spaceIPs[ns] <= s.changedIPs && ns in s.changedNs
    ensures Due(s, s.changedIPs, s.changedNs, {})
  {
    assert forall ip | ip in s.users && ns in s.users[ip] :: ip in s.spaceIPs[ns];
    PendingIsDue(s, {ns});
  }

  /** Of the addresses `done`, the tracked ones have been marked, and nothing else happened. */
  ghost predicate MarkProgress(s0: State, s: State, done: set<string>) {
    && s.hosts == s0.hosts && s.users == s0.users && s.assignee == s0.assignee && SameNodes(s0, s) && SameSpaces(s0, s)
    && s.view == s0.view && s0.changedIPs <= s.changedIPs <= s0.changedIPs + done && s0.changedNs <= s.changedNs
    && (forall ip | ip in done && ip in s.users :: ip in s.changedIPs && s.users[ip] <= s.changedNs)
  }

  lemma MarkProgressStart(s: State)
    ensures MarkProgress(s, s, {})
  {
  }

  lemma MarkStep(s0: State, s: State, s': State, done: set<string>, ip: string, X: set<VNID>)
    requires Pending(s, X) && MarkProgress(s0, s, done) && ip in s.hosts && Marks(s, s', ip)
    ensures Pending(s', X) && MarkProgress(s0, s', done + {ip})
  {
    MarkKeepsPending(s, s', ip, X);
  }

  lemma MarkSkip(s0: State, s: State, done: set<string>, ip: string)
    requires MarkProgress(s0, s, done) && ip !in s.users
    ensures MarkProgress(s0, s, done + {ip})
  {
  }

  lemma EditingIsPending(s: State, X: set<VNID>, T: set<string>)
    requires Editing(s, X, T)
    ensures Pending(s, X)
  {
  }

  /** What an update of the request of `v` to `req` leaves behind. */
  ghost predicate Requested(s: State, s': State, v: VNID, req: seq<string>) {
    && s'.nodeIPs == s.nodeIPs && s'.nodeIP == s.nodeIP && s'.offline == s.offline
    && s'.requested == if req == [] then s.requested - {v} else s.requested[v := req]
  }

  lemma OldRequest(egs: IPTable, nodes: NodeTable, spaces: SpaceTable, cIPs: set<string>, cNs: set<VNID>, s: State,
                   v: VNID)
    requires Links(egs, nodes, spaces, cIPs, cNs, s) && Stable(s) && v in s.requested
    ensures v in s.spaceIPs && v in spaces && s.spaceIPs[v] == ToSet(spaces[v].requestedIPs)
    ensures s.requested[v] != [] ==> s.spaceIPs[v] != {}
    ensures s.changedIPs == {} && spaces[v].requestedIPs == s.requested[v]
  {
    assert s.requested[v] != [] ==> s.requested[v][0] in ToSet(s.requested[v]);
  }

  lemma AddedNamespaceIPs(s0: State, s1: State, v: VNID, newIPs: set<string>, oldIPs: set<string>)
    requires v in s0.spaceIPs && s0.spaceIPs[v] == oldIPs && SpaceProgress(s0, s1, v, newIPs - oldIPs, true)
    ensures v in s1.spaceIPs && oldIPs - newIPs <= s1.spaceIPs[v]
  {
  }

  lemma SyncedKeeps(s: State, s': State, C: set<string>)
    requires SyncedOnly(s, s', C)
    ensures SameNodes(s, s') && s'.requested == s.requested && s'.spaceIPs == s.spaceIPs
  {
  }

  /** They mark all addresses of the old and of the new request. */
  lemma NamespaceEditsMark(s0: State, s1: State, s2: State, s3: State, v: VNID, req: seq<string>)
    requires v in s0.spaceIPs && Static(s3) && s3.spaceIPs.Keys == s0.spaceIPs.Keys && s3.spaceIPs[v] == ToSet(req)
    requires SpaceProgress(s0, s1, v, ToSet(req) - s0.spaceIPs[v], true)
    requires SpaceProgress(s1, s2, v, s0.spaceIPs[v] - ToSet(req), false)
    requires MarkProgress(s2, s3, ToSet(req) * s0.spaceIPs[v])
    ensures s3.changedIPs == s0.changedIPs + s0.spaceIPs[v] + ToSet(req)
  {
    assert forall ip | ip in ToSet(req) :: ip in s3.spaceIPs[v];
    assert forall ip | ip in ToSet(req) * s0.spaceIPs[v] :: ip in s3.users && ip in s3.changedIPs;
  }

  lemma DueIsStatic(s: State, C: set<string>, N: set<VNID>)
    requires Due(s, C, N, {})
    ensures Static(s)
  {
  }

  lemma EditsKeepSpaces(s0: State, s1: State, s2: State, s3: State,
                        v: VNID, a: set<string>, b: set<string>, c: set<string>)
    requires SpaceProgress(s0, s1, v, a, true) && SpaceProgress(s1, s2, v, b, false) && MarkProgress(s2, s3, c)
    ensures s3.spaceIPs.Keys == s0.spaceIPs.Keys
  {
  }

  /** The three edits of one namespace update, in order, end in a due state. */
  lemma NamespaceEditsAreDue(s0: State, s1: State, s2: State, s3: State, v: VNID, req: seq<string>)
    requires v in s0.requested && s0.requested[v] == req && v in s0.spaceIPs && (req != [] || s0.spaceIPs[v] != {})
    requires Pending(s3, {v})
    requires SpaceProgress(s0, s1, v, ToSet(req) - s0.spaceIPs[v], true)
    requires SpaceProgress(s1, s2, v, s0.spaceIPs[v] - ToSet(req), false)
    requires MarkProgress(s2, s3, ToSet(req) * s0.spaceIPs[v])
    ensures Due(s3, s3.changedIPs, s3.changedNs, {})
    ensures s3.requested == s0.requested && s3.spaceIPs[v] == ToSet(req) && SameNodes(s0, s3)
  {
    assert s3.spaceIPs[v] == ToSet(req);
    forall ip | ip in ToSet(req) ensures ip in s3.changedIPs {
      assert ip in s3.users;
    }
    assert v in s3.changedNs by {
      if ToSet(req) - s0.spaceIPs[v] == {} && s0.spaceIPs[v] - ToSet(req) == {} {
        assert ToSet(req) == s0.spaceIPs[v];
        assert req != [] ==> req[0] in ToSet(req);
        var ip :| ip in s0.spaceIPs[v];
        assert v in s3.users[ip];
      }
    }
    RequestIsDue(s3, v);
  }

  // ---- what the tracker's own indexes hold -----------------------------------------------------

  function WithCIDRs(nodes: map<string, NodeId>, store: NodeTable): set<string> {
    set u | u in nodes && nodes[u] in store && store[nodes[u]].requestedCIDRs != {}
  }

  /** Every known node is listed for exactly the addresses it requests. */
  ghost predicate NodesListed(store: NodeTable, nodeIPs: map<NodeId, set<string>>, next: NodeId) {
    && store.Keys == nodeIPs.Keys
    && (forall n {:trigger store[n]} | n in store :: store[n].requestedIPs == nodeIPs[n] && n < next)
  }

  /** UIDs track different known nodes; a node tracked under no UID requests nothing. */
  ghost predicate NodesTracked(nodes: map<string, NodeId>, store: NodeTable) {
    && (forall u {:trigger nodes[u]} | u in nodes :: nodes[u] in store)
    && (forall u, w {:trigger nodes[u], nodes[w]} | u in nodes && w in nodes && u != w :: nodes[u] != nodes[w])
    && (forall n {:trigger n in nodes.Values} | n in store && n !in nodes.Values ::
          store[n].requestedIPs == {} && store[n].requestedCIDRs == {})
  }

  ghost predicate AllKnown(byIP: map<string, NodeId>, store: NodeTable) {
    forall a {:trigger byIP[a]} | a in byIP :: byIP[a] in store
  }

  /** The node indexes are exact; `withCIDRs` counts the tracked nodes that have CIDRs. */
  ghost predicate NodesRegistered(nodes: map<string, NodeId>, byIP: map<string, NodeId>, store: NodeTable,
                                  nodeIPs: map<NodeId, set<string>>, next: NodeId, withCIDRs: int)
  {
    NodesListed(store, nodeIPs, next) && NodesTracked(nodes, store) && AllKnown(byIP, store)
    && withCIDRs == |WithCIDRs(nodes, store)|
  }

  ghost predicate SpacesRegistered(spaces: set<VNID>, requested: map<VNID, seq<string>>) {
    spaces == requested.Keys && forall v {:trigger requested[v]} | v in requested :: requested[v] != []
  }

  lemma KnownSpaces(egs: IPTable, nodes: NodeTable, spaces: SpaceTable, cIPs: set<string>, cNs: set<VNID>, s: State)
    requires Links(egs, nodes, spaces, cIPs, cNs, s)
    ensures spaces.Keys == s.requested.Keys
  {
  }

  lemma NoRequest(s: State, v: VNID)
    requires v !in s.requested
    ensures Requested(s, s, v, [])
  {
    assert s.requested - {v} == s.requested;
  }

  lemma RequestedIs(s: State, s': State, v: VNID, req: seq<string>)
    requires SameNodes(s, s')
    requires s'.requested == if req == [] then s.requested[v := req] - {v} else s.requested[v := req]
    ensures Requested(s, s', v, req)
  {
    assert s.requested[v := req] - {v} == s.requested - {v};
  }

  lemma RequestedRegisters(spaces: set<VNID>, s: State, s': State, v: VNID, req: seq<string>)
    requires SpacesRegistered(spaces, s.requested) && Requested(s, s', v, req)
    ensures SpacesRegistered(if req == [] then spaces - {v} else spaces + {v}, s'.requested)
    ensures s'.nodeIPs == s.nodeIPs
  {
  }

  // ---- a node goes offline, is renumbered, or changes its request ---------------------------------

  lemma OfflineIsDue(s: State, s1: State, s2: State, n: NodeId, offline: bool)
    requires Stable(s) && n in s.nodeIPs && GoesOffline(s, s1, n, offline)
    requires Pending(s2, Dependents(s, n)) && MarkProgress(s1, s2, s.nodeIPs[n])
    ensures Due(s2, s2.changedIPs, s2.changedNs, {})
  {
    assert Dependents(s, n) <= s2.changedNs;
    OrderedFrame(s, s2);
    forall ip | ip in s2.hosts ensures LoneAssigned(s2, ip) { assert InOrder(s2, ip); }
    PendingIsDue(s2, Dependents(s, n));
  }

  /** Deletions that only ever touched unmarked, stable addresses changed no assignment. */
  lemma DeletedIsDue(s: State, T: set<string>)
    requires Editing(s, {}, T)
    ensures Due(s, s.changedIPs, s.changedNs, {})
  {
    PendingIsDue(s, {});
  }

  /** The addresses that move with node `n`: those assigned to it. */
  ghost function Moving(s: State, n: NodeId): set<string>
    requires n in s.nodeIPs && n in s.nodeIP
  {
    set ip | ip in s.nodeIPs[n] && ip in s.assignee && s.assignee[ip] == s.nodeIP[n]
  }

  /** What moves when the node takes the IP `at`. */
  ghost function MovingTo(s: State, n: NodeId, at: string): set<string>
    requires n in s.nodeIPs && n in s.nodeIP
  {
    if s.nodeIP[n] == at then {} else Moving(s, n)
  }

  /** The addresses in which the request of the node and `ips` differ. */
  ghost function Differing(s: State, n: NodeId, ips: set<string>): set<string>
    requires n in s.nodeIPs
  {
    (ips - s.nodeIPs[n]) + (s.nodeIPs[n] - ips)
  }

  lemma AssignedToHost(s: State, n: NodeId, ip: string)
    requires Stable(s) && n in s.nodeIPs && n in s.nodeIP && ip in s.nodeIPs[n] && s.assignee[ip] != ""
    ensures ip in Moving(s, n) && s.hosts[ip] == {n}
  {
    assert InOrder(s, ip) && Held(s, ip);
    assert n in s.hosts[ip];
    forall m | m in s.hosts[ip] ensures m == n { SoleMember(s.hosts[ip], n, m); }
  }

  /** Once the moving addresses were taken off `n` and synchronised, nothing of `n` is assigned. */
  lemma NothingAssigned(s0: State, s1: State, s2: State, n: NodeId, ip: string)
    requires Stable(s0) && n in s0.nodeIPs && n in s0.nodeIP && Detached(s0, s1, n, Moving(s0, n))
    requires SyncedOnly(s1, s2, s1.changedIPs) && Stable(s2) && ip in s0.nodeIPs[n]
    ensures AssigneeOf(s2, ip) == ""
  {
    DetachedEmpty(s0, s1, n);
    if ip in s2.assignee && s2.assignee[ip] != "" {
      assert InOrder(s2, ip);
      if ip !in Moving(s0, n) {
        AssignedToHost(s0, n, ip);
      }
      assert false;
    }
  }

  lemma NodeReaddedStep(s0: State, s: State, s': State, n: NodeId, done: set<string>, ip: string)
    requires Editing(s, {}, {}) && NodeProgress(s0, s, n, done, true) && ip !in s0.nodeIPs[n] && ip !in done
    requires ip != "" && ip != "dropped" && AssigneeOf(s, ip) == "" && NodeAdded(s, s', n, ip)
    ensures Editing(s', {}, {}) && NodeProgress(s0, s', n, done + {ip}, true)
    ensures forall x :: AssigneeOf(s', x) == AssigneeOf(s, x)
  {
    hide Pending, Tight;
    NodeAddedKeepsPending(s, s', n, ip, {});
  }

  /** What an update of the record of node `n` leaves behind. */
  ghost predicate NodeUpdated(s: State, s': State, n: NodeId, at: string, ips: set<string>) {
    && n in s.nodeIPs && s'.nodeIPs == s.nodeIPs[n := ips] && s'.nodeIP == s.nodeIP[n := at]
    && s'.offline == s.offline && s'.requested == s.requested
  }

  lemma KnownNode(nodes: map<string, NodeId>, byIP: map<string, NodeId>, store: NodeTable,
                  nodeIPs: map<NodeId, set<string>>, next: NodeId, withCIDRs: int, a: string)
    requires NodesRegistered(nodes, byIP, store, nodeIPs, next, withCIDRs) && a in byIP
    ensures byIP[a] in store && byIP[a] in nodeIPs && store[byIP[a]].requestedIPs == nodeIPs[byIP[a]]
  {
  }

  lemma OfflineRegisters(nodes: map<string, NodeId>, byIP: map<string, NodeId>, store: NodeTable,
                         nodeIPs: map<NodeId, set<string>>, next: NodeId, withCIDRs: int, n: NodeId, offline: bool)
    requires NodesRegistered(nodes, byIP, store, nodeIPs, next, withCIDRs) && n in store
    ensures NodesRegistered(nodes, byIP, store[n := store[n].(offline := offline)], nodeIPs, next, withCIDRs)
  {
    assert WithCIDRs(nodes, store[n := store[n].(offline := offline)]) == WithCIDRs(nodes, store);
  }

  lemma OfflineKeeps(s0: State, s1: State, s2: State, n: NodeId, offline: bool)
    requires GoesOffline(s0, s1, n, offline) && n in s0.nodeIPs && MarkProgress(s1, s2, s0.nodeIPs[n])
    ensures s2.requested == s0.requested && s2.nodeIPs == s0.nodeIPs
    ensures s2.nodeIP == s0.nodeIP && s2.offline == s0.offline[n := offline]
    ensures Stable(s0) ==> s2.changedIPs == s0.nodeIPs[n]
  {
    assert Stable(s0) ==> forall ip | ip in s0.nodeIPs[n] :: ip in s2.users;
  }

  lemma StableIsEditing(s: State)
    requires Stable(s)
    ensures Editing(s, {}, {}) && Editing(s, {}, {} + {})
  {
    StableIsPending(s, {});
    var none: set<string> := {};
    assert none + none == none;
  }

  lemma TableAssignee(egs: IPTable, nodes: NodeTable, spaces: SpaceTable, cIPs: set<string>, cNs: set<VNID>, s: State,
                      ip: string)
    requires Links(egs, nodes, spaces, cIPs, cNs, s)
    ensures ip in egs <==> ip in s.assignee
    ensures ip in egs ==> egs[ip].assignedNodeIP == s.assignee[ip]
  {
  }

  /** The addresses `moved` were taken off node `n`; all assignments still stand. */
  ghost predicate Detached(s0: State, s: State, n: NodeId, moved: set<string>) {
    && Editing(s, {}, moved) && NodeProgress(s0, s, n, moved, false) && s.assignee == s0.assignee
    && (forall x {:trigger s.hosts[x]} | x in s.hosts ::
          x in s0.hosts && s.hosts[x] == if x in moved then s0.hosts[x] - {n} else s0.hosts[x])
  }

  lemma DetachedStart(s: State, n: NodeId)
    requires Stable(s) && n in s.nodeIPs
    ensures Detached(s, s, n, {})
  {
    StableIsPending(s, {});
  }

  lemma DetachStep(s0: State, s: State, s': State, n: NodeId, moved: set<string>, ip: string)
    requires Detached(s0, s, n, moved) && ip in s0.nodeIPs[n] && ip !in moved
    requires ip in s.hosts && ip in s.users && n in s.hosts[ip] && NodeRemoved(s, s', n, ip)
    ensures Detached(s0, s', n, moved + {ip})
  {
    hide Editing;
    assert {} + moved == moved && {} + (moved + {ip}) == moved + {ip};
    NodeRemovedStep(s0, s, s', n, moved, ip, {});
  }

  lemma DetachedListed(s0: State, s: State, n: NodeId, moved: set<string>, ip: string)
    requires Detached(s0, s, n, moved) && ip in s0.nodeIPs[n] && ip !in moved
    ensures Indexed(s.hosts, s.nodeIPs) && n in s.nodeIPs && n in HostsOf(s, ip) && ip in s.users
  {
    assert ip in s.nodeIPs[n];
  }

  lemma DetachedEmpty(s0: State, s: State, n: NodeId)
    requires Stable(s0) && n in s0.nodeIPs && n in s0.nodeIP && Detached(s0, s, n, Moving(s0, n))
    ensures forall x | x in Moving(s0, n) && x in s.hosts :: s.hosts[x] == {}
  {
    forall x | x in Moving(s0, n) && x in s.hosts ensures s.hosts[x] == {} {
      AssignedToHost(s0, n, x);
    }
  }

  lemma DetachedAssignee(s0: State, s: State, n: NodeId, moved: set<string>)
    requires Detached(s0, s, n, moved)
    ensures s.assignee == s0.assignee
  {
  }

  /** The addresses `done` were given back to node `n` after it was renumbered. */
  ghost predicate Reattached(s0: State, s: State, n: NodeId, done: set<string>) {
    && Editing(s, {}, {}) && NodeProgress(s0, s, n, done, true)
    && (forall x {:trigger AssigneeOf(s, x)} :: AssigneeOf(s, x) == AssigneeOf(s0, x))
  }

  lemma ReattachedStart(s: State, n: NodeId)
    requires Stable(s) && n in s.nodeIPs
    ensures Reattached(s, s, n, {})
  {
    StableIsPending(s, {});
  }

  lemma ReattachStep(s0: State, s: State, s': State, n: NodeId, done: set<string>, ip: string)
    requires Reattached(s0, s, n, done) && ip !in s0.nodeIPs[n] && ip !in done && AssigneeOf(s0, ip) == ""
    requires ip != "" && ip != "dropped" && NodeAdded(s, s', n, ip)
    ensures Reattached(s0, s', n, done + {ip})
  {
    hide Editing;
    assert AssigneeOf(s, ip) == "";
    NodeReaddedStep(s0, s, s', n, done, ip);
  }

  lemma ReattachedReady(s0: State, s: State, n: NodeId, done: set<string>, ip: string)
    requires Reattached(s0, s, n, done) && ip !in s0.nodeIPs[n] && ip !in done
    ensures Indexed(s.hosts, s.nodeIPs) && n in s.nodeIPs && ip !in s.nodeIPs[n]
  {
  }

  /** From a stable state, through detaching, synchronising and renumbering, to reattaching. */
  lemma RenumberedState(s0: State, s1: State, s2: State, s3: State, n: NodeId, at: string)
    requires Stable(s0) && n in s0.nodeIPs && n in s0.nodeIP && Detached(s0, s1, n, Moving(s0, n))
    requires SyncedOnly(s1, s2, s1.changedIPs) && Stable(s2) && at != "" && Renumbers(s2, s3, n, at)
    ensures Stable(s3) && n in s3.nodeIPs && s3.nodeIPs[n] == s0.nodeIPs[n] - Moving(s0, n)
    ensures s3.nodeIPs == s0.nodeIPs[n := s3.nodeIPs[n]] && s3.nodeIP == s0.nodeIP[n := at]
    ensures s3.offline == s0.offline && s3.requested == s0.requested
    ensures forall ip | ip in s0.nodeIPs[n] :: AssigneeOf(s3, ip) == ""
  {
    hide Stable;
    forall ip | ip in s0.nodeIPs[n] ensures AssigneeOf(s2, ip) == "" { NothingAssigned(s0, s1, s2, n, ip); }
    assert forall ip | ip in s2.nodeIPs[n] && ip in s2.assignee :: s2.assignee[ip] == "" by {
      forall ip | ip in s2.nodeIPs[n] && ip in s2.assignee ensures s2.assignee[ip] == "" {
        assert AssigneeOf(s2, ip) == "";
      }
    }
    RenumberStable(s2, s3, n, at);
  }

  lemma DetachedIsEditing(s0: State, s: State, n: NodeId, moved: set<string>)
    requires Detached(s0, s, n, moved)
    ensures Editing(s, {}, moved)
  {
  }

  lemma ReattachedIs(s0: State, s: State, n: NodeId, done: set<string>)
    requires Reattached(s0, s, n, done)
    ensures Editing(s, {}, {}) && n in s.nodeIPs && s.nodeIPs[n] == s0.nodeIPs[n] + done
    ensures s.nodeIPs == s0.nodeIPs[n := s.nodeIPs[n]]
    ensures s.nodeIP == s0.nodeIP && s.offline == s0.offline && s.requested == s0.requested
    ensures done <= s.changedIPs <= s0.changedIPs + done
  {
  }

  lemma StableIsUnmarked(s: State)
    requires Stable(s)
    ensures s.changedIPs == {}
  {
  }

  lemma DetachedMarks(s0: State, s: State, n: NodeId, moved: set<string>)
    requires Stable(s0) && Detached(s0, s, n, moved)
    ensures s.changedIPs == moved
  {
  }

  /** The addresses that move are all unassigned in between. */
  lemma RenumberedFree(s0: State, s2: State, s3: State, n: NodeId, at: string)
    requires n in s0.nodeIPs && n in s0.nodeIP && Renumbers(s2, s3, n, at)
    requires forall ip | ip in s0.nodeIPs[n] :: AssigneeOf(s3, ip) == ""
    ensures Free(s2, Moving(s0, n)) <==> Moving(s0, n) != {}
  {
    if Moving(s0, n) != {} {
      var ip :| ip in Moving(s0, n);
      assert AssigneeOf(s3, ip) == "" && AssigneeOf(s2, ip) == "";
    }
  }

  lemma MovingIsReal(s: State, n: NodeId)
    requires Stable(s) && n in s.nodeIPs && n in s.nodeIP
    ensures RealIPs(Moving(s, n)) && Moving(s, n) <= s.nodeIPs[n]
  {
  }

  // ---- the node indexes after an update of one node ----------------------------------------------

  function NodeIPOf(store: NodeTable, n: NodeId): string {
    if n in store then store[n].nodeIP else ""
  }

  function CIDRsOf(store: NodeTable, n: NodeId): set<string> {
    if n in store then store[n].requestedCIDRs else {}
  }

  /** At most the tracking of `uid` changed: node `n` was added, kept or dropped. */
  ghost predicate Retracked(nodes: map<string, NodeId>, nodes': map<string, NodeId>, store: NodeTable, uid: string,
                            n: NodeId) {
    && (forall u {:trigger nodes'[u]} {:trigger nodes[u]} | u != uid ::
          (u in nodes <==> u in nodes') && (u in nodes ==> nodes'[u] == nodes[u] && nodes[u] != n))
    && (uid in nodes ==> nodes[uid] == n) && (uid in nodes' ==> nodes'[uid] == n)
    && (n in store <==> uid in nodes)
  }

  lemma FlipCard<T>(A: set<T>, B: set<T>, x: T)
    requires A - {x} == B - {x}
    ensures |B| == |A| - (if x in A then 1 else 0) + (if x in B then 1 else 0)
  {
    assert A == if x in A then (A - {x}) + {x} else A - {x};
    assert B == if x in B then (B - {x}) + {x} else B - {x};
  }

  lemma RetrackedCount(nodes: map<string, NodeId>, nodes': map<string, NodeId>, store: NodeTable, uid: string,
                       n: NodeId, r: NodeEgress)
    requires Retracked(nodes, nodes', store, uid, n) && (uid !in nodes' ==> r.requestedCIDRs == {})
    ensures |WithCIDRs(nodes', store[n := r])| ==
            |WithCIDRs(nodes, store)| - (if CIDRsOf(store, n) != {} then 1 else 0)
            + (if r.requestedCIDRs != {} then 1 else 0)
  {
    var W, W' := WithCIDRs(nodes, store), WithCIDRs(nodes', store[n := r]);
    assert W - {uid} == W' - {uid} by {
      forall u | u != uid ensures u in W <==> u in W' {}
    }
    FlipCard(W, W', uid);
  }

  lemma RetrackedNodes(nodes: map<string, NodeId>, nodes': map<string, NodeId>, store: NodeTable, uid: string,
                       n: NodeId, m: NodeId)
    requires Retracked(nodes, nodes', store, uid, n) && m in store && m != n && m in nodes.Values
    ensures m in nodes'.Values
  {
    var u :| u in nodes && nodes[u] == m;
    assert u in nodes' && nodes'[u] == m;
  }

  lemma RetrackedTracked(nodes: map<string, NodeId>, nodes': map<string, NodeId>, store: NodeTable, uid: string,
                         n: NodeId, r: NodeEgress)
    requires NodesTracked(nodes, store) && Retracked(nodes, nodes', store, uid, n)
    requires uid !in nodes' ==> r.requestedIPs == {} && r.requestedCIDRs == {}
    ensures NodesTracked(nodes', store[n := r])
  {
    var store' := store[n := r];
    assert forall u | u in nodes' :: nodes'[u] in nodes'.Values;
    forall m | m in store' && m !in nodes'.Values
      ensures store'[m].requestedIPs == {} && store'[m].requestedCIDRs == {}
    {
      if m != n && m in nodes.Values {
        RetrackedNodes(nodes, nodes', store, uid, n, m);
        assert false;
      }
    }
    forall u, w | u in nodes' && w in nodes' && u != w ensures nodes'[u] != nodes'[w] {}
  }

  /** Node `n` is about to be updated: from the registered indexes only the
      tracking of `uid` has changed, and `n` has a record. */
  ghost predicate Tracking(nodes: map<string, NodeId>, byIP: map<string, NodeId>, store: NodeTable,
                           nodeIPs: map<NodeId, set<string>>, next: NodeId,
                           nodes': map<string, NodeId>, byIP': map<string, NodeId>, store': NodeTable,
                           nodeIPs': map<NodeId, set<string>>, next': NodeId,
                           uid: string, n: NodeId)
  {
    && Retracked(nodes, nodes', store, uid, n) && next <= next' && n < next'
    && n in store' && store' == store[n := store'[n]] && store'[n].requestedCIDRs == CIDRsOf(store, n)
    && n in nodeIPs' && nodeIPs' == nodeIPs[n := nodeIPs'[n]] && store'[n].requestedIPs == nodeIPs'[n]
    && (forall a {:trigger byIP'[a]} | a in byIP' :: byIP'[a] == n || (a in byIP && byIP'[a] == byIP[a]))
  }

  /** Then the record of `n` becomes `r`, and the indexes are registered again. */
  lemma RetrackedRegisters(nodes: map<string, NodeId>, byIP: map<string, NodeId>, store: NodeTable,
                           nodeIPs: map<NodeId, set<string>>, next: NodeId, count: int,
                           nodes': map<string, NodeId>, byIP1: map<string, NodeId>, store1: NodeTable,
                           nodeIPs1: map<NodeId, set<string>>, next': NodeId,
                           byIP2: map<string, NodeId>, count2: int, uid: string, n: NodeId, r: NodeEgress)
    requires NodesRegistered(nodes, byIP, store, nodeIPs, next, count)
    requires Tracking(nodes, byIP, store, nodeIPs, next, nodes', byIP1, store1, nodeIPs1, next', uid, n)
    requires uid !in nodes' ==> r.requestedIPs == {} && r.requestedCIDRs == {}
    requires forall a | a in byIP2 :: byIP2[a] == n || (a in byIP1 && byIP2[a] == byIP1[a])
    requires count2 == count - (if store1[n].requestedCIDRs != {} then 1 else 0)
                       + (if r.requestedCIDRs != {} then 1 else 0)
    ensures NodesRegistered(nodes', byIP2, store1[n := r], nodeIPs1[n := r.requestedIPs], next', count2)
    ensures NodesKept(nodes, store, nodes', store1[n := r], uid)
  {
    assert store1[n := r] == store[n := r] && nodeIPs1[n := r.requestedIPs] == nodeIPs[n := r.requestedIPs];
    RetrackedKept(nodes, nodes', store, uid, n, r);
    hide WithCIDRs, NodesTracked, Retracked, NodesKept;
    RetrackedCount(nodes, nodes', store, uid, n, r);
    RetrackedTracked(nodes, nodes', store, uid, n, r);
  }

  /** Nodes tracked under other UIDs keep their records. */
  ghost predicate NodesKept(nodes: map<string, NodeId>, store: NodeTable, nodes': map<string, NodeId>,
                            store': NodeTable, uid: string) {
    forall u {:trigger nodes'[u]} {:trigger nodes[u]} | u != uid ::
      && (u in nodes' <==> u in nodes)
      && (u in nodes ==>
            nodes'[u] == nodes[u] && nodes[u] in store && nodes[u] in store' && store'[nodes[u]] == store[nodes[u]])
  }

  lemma RetrackedKept(nodes: map<string, NodeId>, nodes': map<string, NodeId>, store: NodeTable, uid: string, n: NodeId,
                      r: NodeEgress)
    requires NodesTracked(nodes, store) && Retracked(nodes, nodes', store, uid, n)
    ensures NodesKept(nodes, store, nodes', store[n := r], uid)
  {
  }

  lemma RealSubset(ips: set<string>, sub: set<string>)
    requires RealIPs(ips) && sub <= ips
    ensures RealIPs(sub)
  {
  }

  lemma AddedNodeIPs(s0: State, s1: State, n: NodeId, added: set<string>)
    requires NodeProgress(s0, s1, n, added, true)
    ensures n in s1.nodeIPs && s0.nodeIPs[n] <= s1.nodeIPs[n]
  {
  }

  lemma ChangedNodeIPs(s0: State, s1: State, s2: State, s3: State, n: NodeId, ips: set<string>)
    requires n in s0.nodeIPs && n in s0.nodeIP && NodeProgress(s0, s1, n, ips - s0.nodeIPs[n], true)
    requires NodeProgress(s1, s2, n, s0.nodeIPs[n] - ips, false) && SyncedOnly(s2, s3, s2.changedIPs)
    ensures NodeUpdated(s0, s3, n, s0.nodeIP[n], ips)
    ensures s2.changedIPs == s0.changedIPs + (ips - s0.nodeIPs[n]) + (s0.nodeIPs[n] - ips)
  {
    assert s3.nodeIPs[n] == ips;
    assert s3.nodeIPs == s0.nodeIPs[n := ips];
    assert s3.nodeIP == s0.nodeIP[n := s0.nodeIP[n]];
  }

  lemma FreshNode(egs: IPTable, nodes: NodeTable, spaces: SpaceTable, cIPs: set<string>, cNs: set<VNID>, s: State,
                  n: NodeId)
    requires Links(egs, nodes, spaces, cIPs, cNs, s)
    ensures nodes.Keys == s.nodeIP.Keys && forall m | m in nodes :: nodes[m].nodeIP == s.nodeIP[m]
  {
  }

  lemma UntrackedFacts(nodes: map<string, NodeId>, byIP: map<string, NodeId>, store: NodeTable,
                       nodeIPs: map<NodeId, set<string>>, next: NodeId, count: int,
                       uid: string, at: string, r: NodeEgress)
    requires NodesRegistered(nodes, byIP, store, nodeIPs, next, count)
    requires uid !in nodes && r.requestedIPs == {} && r.requestedCIDRs == {}
    ensures next !in store && next !in nodeIPs
    ensures Tracking(nodes, byIP, store, nodeIPs, next,
                     nodes[uid := next], byIP[at := next], store[next := r], nodeIPs[next := {}], next + 1, uid, next)
  {
  }

  lemma TrackedFacts(nodes: map<string, NodeId>, byIP: map<string, NodeId>, store: NodeTable,
                     nodeIPs: map<NodeId, set<string>>, next: NodeId, count: int,
                     uid: string, at: string)
    requires NodesRegistered(nodes, byIP, store, nodeIPs, next, count) && uid in nodes
    ensures nodes[uid] in store && nodes[uid] in nodeIPs
    ensures Tracking(nodes, byIP, store, nodeIPs, next, nodes, byIP, store, nodeIPs, next, uid, nodes[uid])
    ensures Tracking(nodes, byIP, store, nodeIPs, next,
                     nodes - {uid}, byIP - {at}, store, nodeIPs, next, uid, nodes[uid])
  {
    var n := nodes[uid];
    assert store == store[n := store[n]] && nodeIPs == nodeIPs[n := nodeIPs[n]];
    assert forall u | u in nodes && u != uid :: nodes[u] != nodes[uid];
  }

  // ---- which nodes are known, and which are offline -----------------------------------------

  /** Nodes by UID and by IP, and the IP and the flag of each node object; `next` is the next new object. */
  datatype Roster = Roster(
    nodes: map<string, NodeId>,
    byIP: map<string, NodeId>,
    at: map<NodeId, string>,
    offline: map<NodeId, bool>,
    next: NodeId)

  /** The index by IP once `node` has moved from one IP to another. */
  function ByIPAfter(byIP: map<string, NodeId>, node: NodeId, from: string, to: string): map<string, NodeId> {
    if from == to then byIP else (byIP - {from})[to := node]
  }

  /** A HostSubnet event: a new node object is online; a known one keeps its flag. */
  function HostStep(r: Roster, uid: string, hostIP: string, gone: bool): Roster {
    if uid !in r.nodes then
      if gone then r
      else Roster(r.nodes[uid := r.next], r.byIP[hostIP := r.next], r.at[r.next := hostIP],
                  r.offline[r.next := false], r.next + 1)
    else
      var n := r.nodes[uid];
      var from := if n in r.at then r.at[n] else "";
      var byIP := if gone then r.byIP - {from} else r.byIP;
      Roster(if gone then r.nodes - {uid} else r.nodes, ByIPAfter(byIP, n, from, hostIP), r.at[n := hostIP], r.offline,
             r.next)
  }

  /** A report about the node that has the IP. */
  function OfflineStep(r: Roster, nodeIP: string, offline: bool): Roster {
    if nodeIP in r.byIP then r.(offline := r.offline[r.byIP[nodeIP] := offline]) else r
  }

  /** The node of a HostSubnet has been found, created or forgotten, but not yet moved. */
  ghost predicate Entered(r: Roster, uid: string, hostIP: string, gone: bool, r': Roster, n: NodeId) {
    if uid !in r.nodes then n == r.next && r' == HostStep(r, uid, hostIP, gone)
    else
      && n == r.nodes[uid] && n in r.at
      && r' == r.(nodes := if gone then r.nodes - {uid} else r.nodes,
                  byIP := if gone then r.byIP - {r.at[n]} else r.byIP)
  }

  lemma EnteredMoves(r: Roster, uid: string, hostIP: string, gone: bool, r1: Roster, n: NodeId, r2: Roster)
    requires Entered(r, uid, hostIP, gone, r1, n) && n in r1.at && (uid in r.nodes || !gone)
    requires r2 == r1.(byIP := ByIPAfter(r1.byIP, n, r1.at[n], hostIP), at := r1.at[n := hostIP])
    ensures r2 == HostStep(r, uid, hostIP, gone)
  {
    if uid !in r.nodes {
      assert r1.at[n := hostIP] == r1.at;
    }
  }
}
