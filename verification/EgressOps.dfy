/** What the edits of one operation do to a tracker's state before it is
    synchronised: each edit of an address's lists marks enough for the next
    synchronisation to be sufficient. */
module EgressOps {
  import opened Wrappers
  import opened Watcher
  import opened EgressState
  import opened EgressSync

  // ---- the invariant between edits ----------------------------------------------

  ghost predicate RestBut(s: State, X: set<VNID>)
    requires Shape(s)
  {
    && (forall ip {:trigger OneHostOneSpace(s, ip)} | ip in s.hosts && ip !in s.changedIPs :: OneHostOneSpace(s, ip))
    && (forall ip {:trigger Wanted(s, ip)} | ip in s.hosts && ip !in s.changedIPs :: Wanted(s, ip))
    && (forall ip {:trigger LoneAssigned(s, ip)} | ip in s.hosts && ip !in s.changedIPs && s.users[ip] !! X ::
          LoneAssigned(s, ip))
    && (forall ip, other {:trigger Apart(s, ip, other)} |
          ip in s.hosts && other in s.hosts && ip !in s.changedIPs && other !in s.changedIPs ::
          Apart(s, ip, other))
  }

  ghost predicate RoutesBut(s: State, X: set<VNID>)
    requires Shape(s)
  {
    && (forall o {:trigger Routed(s, o)} | o in s.requested && o !in s.changedNs && o !in X :: Routed(s, o))
    && (forall o {:trigger Remembers(s, o, {})} | o in s.requested :: Remembers(s, o, {}))
  }

  /** Synchronising what is marked would do, but for the namespaces in `X` that
      the operation is still working on. */
  ghost predicate Pending(s: State, X: set<VNID>) {
    && Static(s) && Settled(s, X) && Holds(s) && NoStrayRoutes(s)
    && Marked(s, s.changedIPs, s.changedNs) && RestBut(s, X) && RoutesBut(s, X)
  }

  /** Outside `T` no assigned address has been edited since the last synchronisation. */
  ghost predicate Tight(s: State, T: set<string>)
    requires Shape(s)
  {
    forall ip {:trigger OneHostOneSpace(s, ip)} | ip in s.hosts && ip !in T :: OneHostOneSpace(s, ip)
  }

  lemma StableIsPending(s: State, X: set<VNID>)
    requires Stable(s)
    ensures Pending(s, X) && Tight(s, {})
  {
    forall o | o in s.requested ensures Remembers(s, o, {}) {
      assert Routed(s, o);
      ChoiceIsRequested(s, s.requested[o]);
    }
    forall ip | ip in s.hosts ensures OneHostOneSpace(s, ip) && LoneAssigned(s, ip) { assert InOrder(s, ip); }
  }

  /** When every namespace still in work has been marked, the marks suffice. */
  lemma PendingIsDue(s: State, X: set<VNID>)
    requires Pending(s, X) && Settled(s, {}) && X <= s.changedNs
    requires forall ip {:trigger LoneAssigned(s, ip)} |
               ip in s.hosts && ip !in s.changedIPs && !(s.users[ip] !! X) :: LoneAssigned(s, ip)
    ensures Due(s, s.changedIPs, s.changedNs, {})
  {
    forall ip | ip in s.hosts && ip !in s.changedIPs ensures InOrder(s, ip) {}
  }

  // ---- one edit of the lists of an address ----------------------------------------

  /** Only the lists of `ip` and the listing of namespaces in `X` changed, and
      `ip` was marked with its old and its new namespaces. */
  ghost predicate Edited(s: State, s': State, ip: string, X: set<VNID>)
    requires ip in s.hosts && ip in s.users
  {
    && s'.hosts.Keys == s.hosts.Keys && (forall x | x in s.hosts && x != ip :: s'.hosts[x] == s.hosts[x])
    && s'.users.Keys == s.users.Keys && (forall x | x in s.users && x != ip :: s'.users[x] == s.users[x])
    && s'.nodeIPs.Keys == s.nodeIPs.Keys
    && s'.spaceIPs.Keys == s.spaceIPs.Keys && (forall o | o in s.spaceIPs && o !in X :: s'.spaceIPs[o] == s.spaceIPs[o])
    && s'.assignee == s.assignee && s'.nodeIP == s.nodeIP && s'.offline == s.offline
    && s'.requested == s.requested && s'.active == s.active && s'.view == s.view
    && s'.changedIPs == s.changedIPs + {ip}
    && s'.changedNs == s.changedNs + s.users[ip] + s'.users[ip]
  }

  lemma EditedRest(s: State, s': State, ip: string, X: set<VNID>)
    requires Shape(s) && Shape(s') && ip in s.hosts && Edited(s, s', ip, X) && RestBut(s, X)
    ensures RestBut(s', X)
  {
    forall x | x in s'.hosts && x !in s'.changedIPs
      ensures OneHostOneSpace(s', x) && Wanted(s', x) && (s'.users[x] !! X ==> LoneAssigned(s', x))
    {
      assert OneHostOneSpace(s, x) && Wanted(s, x) && (s.users[x] !! X ==> LoneAssigned(s, x));
    }
    forall x, y | x in s'.hosts && y in s'.hosts && x !in s'.changedIPs && y !in s'.changedIPs ensures Apart(s', x, y) {
      assert Apart(s, x, y);
    }
  }

  lemma EditedRoute(s: State, s': State, ip: string, X: set<VNID>, o: VNID)
    requires Shape(s) && Indexed(s.users, s.spaceIPs) && Settled(s, X)
    requires ip in s.hosts && Edited(s, s', ip, X)
    requires o in s.requested && o !in s'.changedNs && o !in X && Routed(s, o)
    ensures Routed(s', o)
  {
    SettledChoiceFrame(s, s', o);
  }

  lemma EditedRoutes(s: State, s': State, ip: string, X: set<VNID>)
    requires Shape(s) && Indexed(s.users, s.spaceIPs) && Settled(s, X)
    requires ip in s.hosts && Edited(s, s', ip, X) && RoutesBut(s, X) && Shape(s')
    ensures RoutesBut(s', X)
  {
    forall o | o in s'.requested && o !in s'.changedNs && o !in X ensures Routed(s', o) {
      EditedRoute(s, s', ip, X, o);
    }
    forall o | o in s'.requested ensures Remembers(s', o, {}) {
      assert Remembers(s, o, {});
    }
  }

  lemma EditedHolds(s: State, s': State, ip: string, X: set<VNID>)
    requires Shape(s) && Shape(s') && ip in s.hosts && Edited(s, s', ip, X) && Holds(s) && Held(s', ip)
    ensures Holds(s')
  {
    forall x | x in s'.hosts && x in s'.users && x in s'.assignee ensures Held(s', x) {
      assert x != ip ==> Held(s, x);
    }
  }

  lemma EditedMarks(s: State, s': State, ip: string, X: set<VNID>)
    requires ip in s.hosts && ip in s.users && Edited(s, s', ip, X)
    requires Settled(s, X) && NoStrayRoutes(s) && Marked(s, s.changedIPs, s.changedNs)
    ensures Settled(s', X) && NoStrayRoutes(s') && Marked(s', s'.changedIPs, s'.changedNs)
  {
  }

  lemma EditKeepsPending(s: State, s': State, ip: string, X: set<VNID>)
    requires Pending(s, X) && ip in s.hosts && Edited(s, s', ip, X)
    requires Static(s') && Held(s', ip)
    ensures Pending(s', X)
  {
    EditedMarks(s, s', ip, X);
    EditedHolds(s, s', ip, X);
    EditedRest(s, s', ip, X);
    EditedRoutes(s, s', ip, X);
  }

  lemma EditKeepsTight(s: State, s': State, ip: string, X: set<VNID>, T: set<string>)
    requires Shape(s) && Shape(s') && ip in s.hosts && Edited(s, s', ip, X) && Tight(s, T)
    ensures Tight(s', T + {ip})
    ensures s.assignee[ip] == "" ==> Tight(s', T)
  {
    forall x | x in s'.hosts && x !in T && x != ip ensures OneHostOneSpace(s', x) {
      assert OneHostOneSpace(s, x);
    }
  }

  // ---- the edits the tracker makes ----------------------------------------------------

  /** `egressIPChanged`: mark the address and the namespaces in its list. */
  ghost predicate Marks(s: State, s': State, ip: string)
    requires ip in s.users
  {
    && s'.hosts == s.hosts && s'.users == s.users && s'.assignee == s.assignee
    && s'.nodeIP == s.nodeIP && s'.offline == s.offline && s'.nodeIPs == s.nodeIPs
    && s'.requested == s.requested && s'.active == s.active && s'.spaceIPs == s.spaceIPs
    && s'.changedIPs == s.changedIPs + {ip} && s'.changedNs == s.changedNs + s.users[ip] && s'.view == s.view
  }

  lemma MarkKeepsPending(s: State, s': State, ip: string, X: set<VNID>)
    requires Pending(s, X) && ip in s.hosts && Marks(s, s', ip)
    ensures Pending(s', X)
  {
    assert Held(s, ip);
    assert Static(s');
    EditKeepsPending(s, s', ip, X);
  }

  /** A new, empty and marked entry for `ip`. */
  ghost predicate NewIP(s: State, s': State, ip: string) {
    && s'.hosts == s.hosts[ip := {}] && s'.users == s.users[ip := {}] && s'.assignee == s.assignee[ip := ""]
    && s'.nodeIP == s.nodeIP && s'.offline == s.offline && s'.nodeIPs == s.nodeIPs
    && s'.requested == s.requested && s'.active == s.active && s'.spaceIPs == s.spaceIPs
    && s'.changedIPs == s.changedIPs + {ip} && s'.changedNs == s.changedNs && s'.view == s.view
  }

  lemma NewIPRoute(s: State, s': State, ip: string, X: set<VNID>, o: VNID)
    requires Shape(s) && Indexed(s.users, s.spaceIPs) && Settled(s, X)
    requires ip !in s.hosts && NewIP(s, s', ip) && o in s.requested && o !in X && Routed(s, o)
    ensures Routed(s', o)
  {
    SettledChoiceFrame(s, s', o);
  }

  lemma NewIPRest(s: State, s': State, ip: string, X: set<VNID>)
    requires Shape(s) && Shape(s') && ip !in s.hosts && NewIP(s, s', ip) && RestBut(s, X)
    ensures RestBut(s', X)
  {
    forall x | x in s'.hosts && x !in s'.changedIPs
      ensures OneHostOneSpace(s', x) && Wanted(s', x) && (s'.users[x] !! X ==> LoneAssigned(s', x))
    {
      assert OneHostOneSpace(s, x) && Wanted(s, x) && (s.users[x] !! X ==> LoneAssigned(s, x));
    }
    forall x, y | x in s'.hosts && y in s'.hosts && x !in s'.changedIPs && y !in s'.changedIPs ensures Apart(s', x, y) {
      assert Apart(s, x, y);
    }
  }

  lemma NewIPStatic(s: State, s': State, ip: string)
    requires Static(s) && ip !in s.hosts && ip != "" && ip != "dropped" && NewIP(s, s', ip)
    ensures Static(s')
  {
    NewIndexed(s.hosts, s.nodeIPs, ip);
    NewIndexed(s.users, s.spaceIPs, ip);
  }

  lemma NewIndexed<T>(lists: map<string, set<T>>, listed: map<T, set<string>>, ip: string)
    requires Indexed(lists, listed) && ip !in lists
    ensures Indexed(lists[ip := {}], listed)
  {
  }

  lemma NewIPRoutes(s: State, s': State, ip: string, X: set<VNID>)
    requires Shape(s) && Indexed(s.users, s.spaceIPs) && Settled(s, X)
    requires ip !in s.hosts && NewIP(s, s', ip) && RoutesBut(s, X) && Shape(s')
    ensures RoutesBut(s', X)
  {
    forall o | o in s'.requested && o !in s'.changedNs && o !in X ensures Routed(s', o) {
      NewIPRoute(s, s', ip, X, o);
    }
    forall o | o in s'.requested ensures Remembers(s', o, {}) {
      assert Remembers(s, o, {});
    }
  }

  lemma NewIPKeepsPending(s: State, s': State, ip: string, X: set<VNID>, T: set<string>)
    requires Pending(s, X) && Tight(s, T) && ip !in s.hosts && ip != "" && ip != "dropped" && NewIP(s, s', ip)
    ensures Pending(s', X) && Tight(s', T)
  {
    NewIPStatic(s, s', ip);
    NewIPRest(s, s', ip, X);
    NewIPRoutes(s, s', ip, X);
    forall x | x in s'.hosts && x in s'.users && x in s'.assignee ensures Held(s', x) {
      assert x != ip ==> Held(s, x);
    }
    forall x | x in s'.hosts && x !in T ensures OneHostOneSpace(s', x) {
      assert x != ip ==> OneHostOneSpace(s, x);
    }
  }

  lemma EnterIndexed<T>(lists: map<string, set<T>>, listed: map<T, set<string>>, x: T, ip: string)
    requires Indexed(lists, listed) && ip in lists && x in listed
    ensures Indexed(lists[ip := lists[ip] + {x}], listed[x := listed[x] + {ip}])
  {
  }

  lemma LeaveIndexed<T>(lists: map<string, set<T>>, listed: map<T, set<string>>, x: T, ip: string)
    requires Indexed(lists, listed) && ip in lists && x in listed
    ensures Indexed(lists[ip := lists[ip] - {x}], listed[x := listed[x] - {ip}])
  {
  }

  /** Node `n` was put on the list of `ip`, or taken off it. */
  ghost predicate NodeMoves(s: State, s': State, n: NodeId, ip: string, enters: bool)
    requires ip in s.hosts && n in s.nodeIPs
  {
    && s'.hosts == s.hosts[ip := if enters then s.hosts[ip] + {n} else s.hosts[ip] - {n}]
    && s'.nodeIPs == s.nodeIPs[n := if enters then s.nodeIPs[n] + {ip} else s.nodeIPs[n] - {ip}]
    && s'.users == s.users && s'.spaceIPs == s.spaceIPs
  }

  ghost predicate SpaceMoves(s: State, s': State, o: VNID, ip: string, enters: bool)
    requires ip in s.users && o in s.spaceIPs
  {
    && s'.users == s.users[ip := if enters then s.users[ip] + {o} else s.users[ip] - {o}]
    && s'.spaceIPs == s.spaceIPs[o := if enters then s.spaceIPs[o] + {ip} else s.spaceIPs[o] - {ip}]
    && s'.hosts == s.hosts && s'.nodeIPs == s.nodeIPs
  }

  lemma NodeMoveStatic(s: State, s': State, n: NodeId, ip: string, enters: bool)
    requires Static(s) && ip in s.hosts && n in s.nodeIPs && Edited(s, s', ip, {}) && NodeMoves(s, s', n, ip, enters)
    ensures Static(s')
  {
    if enters { EnterIndexed(s.hosts, s.nodeIPs, n, ip); } else { LeaveIndexed(s.hosts, s.nodeIPs, n, ip); }
    assert Shape(s');
  }

  lemma SpaceMoveStatic(s: State, s': State, o: VNID, ip: string, enters: bool)
    requires Static(s) && ip in s.hosts && o in s.spaceIPs && Edited(s, s', ip, {o}) && SpaceMoves(s, s', o, ip, enters)
    ensures Static(s')
  {
    if enters { EnterIndexed(s.users, s.spaceIPs, o, ip); } else { LeaveIndexed(s.users, s.spaceIPs, o, ip); }
    assert Shape(s');
  }

  /** Putting a node on, or taking it off, the list of an untouched address. */
  lemma NodeMoveKeepsPending(s: State, s': State, n: NodeId, ip: string, enters: bool, T: set<string>)
    requires Pending(s, {}) && Tight(s, T) && ip in s.hosts && ip !in T && n in s.nodeIPs
    requires enters <==> n !in s.hosts[ip]
    requires Edited(s, s', ip, {}) && NodeMoves(s, s', n, ip, enters)
    ensures Pending(s', {}) && Tight(s', T + {ip})
    ensures s.assignee[ip] == "" ==> Tight(s', T)
  {
    NodeMoveStatic(s, s', n, ip, enters);
    assert Held(s, ip) && OneHostOneSpace(s, ip);
    assert s.assignee[ip] != "" ==> |s'.hosts[ip]| != 1;
    EditKeepsPending(s, s', ip, {});
    EditKeepsTight(s, s', ip, {}, T);
  }

  lemma SpaceMoveKeepsPending(s: State, s': State, o: VNID, ip: string, enters: bool, T: set<string>)
    requires Pending(s, {o}) && Tight(s, T) && ip in s.hosts && ip !in T && o in s.spaceIPs
    requires enters <==> o !in s.users[ip]
    requires Edited(s, s', ip, {o}) && SpaceMoves(s, s', o, ip, enters)
    ensures Pending(s', {o}) && Tight(s', T + {ip}) && o in s'.changedNs
  {
    SpaceMoveStatic(s, s', o, ip, enters);
    assert Held(s, ip) && OneHostOneSpace(s, ip);
    assert s.assignee[ip] != "" ==> |s'.users[ip]| != 1;
    EditKeepsPending(s, s', ip, {o});
    EditKeepsTight(s, s', ip, {o}, T);
  }

  // ---- objects come, go and change ---------------------------------------------------

  /** Nothing about addresses changed. */
  ghost predicate SameIPs(s: State, s': State) {
    && s'.hosts == s.hosts && s'.users == s.users && s'.assignee == s.assignee
    && s'.changedIPs == s.changedIPs && s'.changedNs == s.changedNs && s'.view == s.view
  }

  ghost predicate SameNodes(s: State, s': State) {
    s'.nodeIP == s.nodeIP && s'.offline == s.offline && s'.nodeIPs == s.nodeIPs
  }

  ghost predicate SameSpaces(s: State, s': State) {
    s'.requested == s.requested && s'.active == s.active && s'.spaceIPs == s.spaceIPs
  }

  ghost predicate NewNode(s: State, s': State, n: NodeId, at: string) {
    && SameIPs(s, s') && SameSpaces(s, s')
    && s'.nodeIP == s.nodeIP[n := at] && s'.offline == s.offline[n := false] && s'.nodeIPs == s.nodeIPs[n := {}]
  }

  /** States that agree on the addresses and on the hosts' health choose alike. */
  lemma SameIPsChoice(s: State, s': State, req: seq<string>)
    requires s'.hosts == s.hosts && s'.users == s.users && s'.assignee == s.assignee
    requires forall n, ip {:trigger n in s.hosts[ip]} | ip in s.hosts && n in s.hosts[ip] ::
               (n in s.offline <==> n in s'.offline) && (n in s.offline ==> s'.offline[n] == s.offline[n])
    ensures Choice(s', req) == Choice(s, req)
  {
    FirstUsableFrame(s, s', req, |req| > 1);
  }

  lemma OrderedFrame(s: State, s': State)
    requires Shape(s) && Shape(s') && s'.hosts == s.hosts && s'.users == s.users && s'.assignee == s.assignee
    requires forall ip, o {:trigger o in s.users[ip]} | ip in s.users && o in s.users[ip] ::
               o in s.spaceIPs && o in s'.spaceIPs && s'.spaceIPs[o] == s.spaceIPs[o]
    requires Ordered(s)
    ensures Ordered(s')
  {
    forall ip | ip in s'.hosts ensures InOrder(s', ip) && Wanted(s', ip) { assert InOrder(s, ip) && Wanted(s, ip); }
    forall ip, other | ip in s'.hosts && other in s'.hosts ensures Apart(s', ip, other) { assert Apart(s, ip, other); }
  }

  lemma HoldsFrame(s: State, s': State)
    requires Shape(s) && Shape(s') && SameIPs(s, s') && Holds(s)
    requires forall ip, n {:trigger n in s.hosts[ip]} | ip in s.hosts && n in s.hosts[ip] && s.assignee[ip] != "" ::
               n in s.nodeIP && n in s'.nodeIP && s'.nodeIP[n] == s.nodeIP[n]
    ensures Holds(s')
  {
    forall ip | ip in s'.hosts && ip in s'.users && ip in s'.assignee ensures Held(s', ip) { assert Held(s, ip); }
  }

  lemma AllRoutedFrame(s: State, s': State)
    requires Shape(s) && Shape(s') && SameIPs(s, s') && SameSpaces(s, s') && AllRouted(s)
    requires forall ip, n {:trigger n in s.hosts[ip]} | ip in s.hosts && n in s.hosts[ip] ::
               (n in s.offline <==> n in s'.offline) && (n in s.offline ==> s'.offline[n] == s.offline[n])
    ensures AllRouted(s')
  {
    forall o | o in s'.requested ensures Routed(s', o) {
      assert Routed(s, o);
      SameIPsChoice(s, s', s.requested[o]);
    }
  }

  /** Only facts about nodes that no assigned address depends on changed. */
  lemma NodesChangeStable(s: State, s': State)
    requires Stable(s) && SameIPs(s, s') && SameSpaces(s, s') && Static(s')
    requires forall ip, n {:trigger n in s.hosts[ip]} | ip in s.hosts && n in s.hosts[ip] ::
               (n in s.offline <==> n in s'.offline) && (n in s.offline ==> s'.offline[n] == s.offline[n])
    requires forall ip, n {:trigger n in s.hosts[ip]} | ip in s.hosts && n in s.hosts[ip] && s.assignee[ip] != "" ::
               n in s.nodeIP && n in s'.nodeIP && s'.nodeIP[n] == s.nodeIP[n]
    ensures Stable(s')
  {
    HoldsFrame(s, s');
    AllRoutedFrame(s, s');
    OrderedFrame(s, s');
  }

  lemma NewNodeStable(s: State, s': State, n: NodeId, at: string)
    requires Stable(s) && n !in s.nodeIP && at != "" && NewNode(s, s', n, at)
    ensures Stable(s')
  {
    assert Static(s');
    NodesChangeStable(s, s');
  }

  ghost predicate Renumbers(s: State, s': State, n: NodeId, at: string) {
    && SameIPs(s, s') && SameSpaces(s, s')
    && s'.nodeIP == s.nodeIP[n := at] && s'.offline == s.offline && s'.nodeIPs == s.nodeIPs
  }

  /** A node may take a new IP once none of its addresses is assigned. */
  lemma RenumberStable(s: State, s': State, n: NodeId, at: string)
    requires Stable(s) && n in s.nodeIP && at != "" && Renumbers(s, s', n, at)
    requires forall ip | ip in s.nodeIPs[n] && ip in s.assignee :: s.assignee[ip] == ""
    ensures Stable(s')
  {
    assert Static(s');
    NodesChangeStable(s, s');
  }

  ghost predicate GoesOffline(s: State, s': State, n: NodeId, offline: bool) {
    && SameIPs(s, s') && SameSpaces(s, s')
    && s'.nodeIP == s.nodeIP && s'.offline == s.offline[n := offline] && s'.nodeIPs == s.nodeIPs
  }

  /** The namespaces whose choice may depend on the health of node `n`. */
  ghost function Dependents(s: State, n: NodeId): set<VNID>
    requires n in s.nodeIPs
  {
    set ip, o | ip in s.nodeIPs[n] && ip in s.users && o in s.users[ip] :: o
  }

  lemma OfflineRoute(s: State, s': State, n: NodeId, offline: bool, o: VNID)
    requires Static(s) && Settled(s, {}) && n in s.nodeIPs && GoesOffline(s, s', n, offline)
    requires o in s.requested && o !in Dependents(s, n) && Routed(s, o)
    ensures Routed(s', o)
  {
    forall ip | ip in s.spaceIPs[o] ensures SameIP(s, s', ip) {
      assert o in s.users[ip];
    }
    SettledChoiceFrame(s, s', o);
  }

  lemma OfflineIsPending(s: State, s': State, n: NodeId, offline: bool)
    requires Stable(s) && n in s.nodeIPs && GoesOffline(s, s', n, offline)
    ensures Pending(s', Dependents(s, n))
  {
    StableIsPending(s, {});
    assert Static(s');
    HoldsFrame(s, s');
    OrderedFrame(s, s');
    forall ip | ip in s'.hosts ensures OneHostOneSpace(s', ip) && LoneAssigned(s', ip) { assert InOrder(s', ip); }
    forall o | o in s'.requested && o !in Dependents(s, n) ensures Routed(s', o) {
      OfflineRoute(s, s', n, offline, o);
    }
    forall o | o in s'.requested ensures Remembers(s', o, {}) { assert Remembers(s, o, {}); }
  }

  /** A namespace object without requests was added. */
  ghost predicate NewSpace(s: State, s': State, o: VNID) {
    && SameIPs(s, s') && SameNodes(s, s')
    && s'.requested == s.requested[o := []]
    && s'.active == s.active[o := ""] && s'.spaceIPs == s.spaceIPs[o := {}]
  }

  ghost predicate DropSpace(s: State, s': State, o: VNID) {
    && SameIPs(s, s') && SameNodes(s, s')
    && s'.requested == s.requested - {o}
    && s'.active == s.active - {o} && s'.spaceIPs == s.spaceIPs - {o}
  }

  ghost predicate Requests(s: State, s': State, o: VNID, req: seq<string>) {
    && SameIPs(s, s') && SameNodes(s, s')
    && s'.requested == s.requested[o := req] && s'.active == s.active && s'.spaceIPs == s.spaceIPs
  }

  /** Namespaces in the lists kept their listing, and others their request. */
  lemma SpacesChangeStatic(s: State, s': State)
    requires Static(s) && SameIPs(s, s') && SameNodes(s, s') && Shape(s')
    requires forall o | o in s.spaceIPs && s.spaceIPs[o] != {} :: o in s'.spaceIPs && s'.spaceIPs[o] == s.spaceIPs[o]
    requires forall o | o in s'.spaceIPs && s'.spaceIPs[o] != {} :: o in s.spaceIPs && s'.spaceIPs[o] == s.spaceIPs[o]
    ensures Static(s')
  {
    assert Indexed(s'.users, s'.spaceIPs) by {
      forall ip, o | ip in s'.users && o in s'.users[ip] ensures o in s'.spaceIPs && ip in s'.spaceIPs[o] {
        assert ip in s.spaceIPs[o];
      }
    }
  }

  lemma SpaceRouteFrame(s: State, s': State, p: VNID)
    requires SameIPs(s, s') && SameNodes(s, s') && p in s.requested
    requires p in s'.requested && p in s.active && p in s'.active
    requires s'.requested[p] == s.requested[p] && s'.active[p] == s.active[p] && Routed(s, p)
    ensures Routed(s', p)
  {
    SameIPsChoice(s, s', s.requested[p]);
  }

  lemma NewSpaceShape(s: State, s': State, o: VNID)
    requires Shape(s) && o !in s.requested && NewSpace(s, s', o)
    ensures Shape(s')
  {
  }

  lemma NewSpaceStable(s: State, s': State, o: VNID)
    requires Stable(s) && o !in s.requested && NewSpace(s, s', o)
    ensures Stable(s')
  {
    NewSpaceShape(s, s', o);
    SpacesChangeStatic(s, s');
    HoldsFrame(s, s');
    OrderedFrame(s, s');
    NewSpaceRouted(s, s', o);
  }

  lemma NewSpaceRouted(s: State, s': State, o: VNID)
    requires Shape(s) && Shape(s') && AllRouted(s) && NoStrayRoutes(s) && Settled(s, {})
    requires o !in s.requested && NewSpace(s, s', o)
    ensures AllRouted(s') && NoStrayRoutes(s') && Settled(s', {})
  {
    forall p | p in s'.requested ensures Routed(s', p) {
      if p != o { assert Routed(s, p); SpaceRouteFrame(s, s', p); }
    }
    assert ToSet<string>([]) == {};
  }

  lemma DropSpaceShape(s: State, s': State, o: VNID)
    requires Shape(s) && o in s.requested && o !in s.changedNs && DropSpace(s, s', o)
    ensures Shape(s')
  {
  }

  /** A namespace that requests nothing any more leaves no trace. */
  lemma DropSpaceStable(s: State, s': State, o: VNID)
    requires Stable(s) && o in s.requested && s.requested[o] == [] && DropSpace(s, s', o)
    ensures Stable(s')
  {
    assert Routed(s, o) && s.spaceIPs[o] == {};
    DropSpaceShape(s, s', o);
    SpacesChangeStatic(s, s');
    HoldsFrame(s, s');
    OrderedFrame(s, s');
    forall p | p in s'.requested ensures Routed(s', p) { SpaceRouteFrame(s, s', p); }
  }

  lemma RequestIsPending(s: State, s': State, o: VNID, req: seq<string>)
    requires Stable(s) && o in s.requested && Requests(s, s', o, req)
    ensures Pending(s', {o}) && Tight(s', {})
  {
    StableIsPending(s, {});
    assert Shape(s');
    HoldsFrame(s, s');
    OrderedFrame(s, s');
    forall ip | ip in s'.hosts ensures OneHostOneSpace(s', ip) && LoneAssigned(s', ip) { assert InOrder(s', ip); }
    forall p | p in s'.requested && p != o ensures Routed(s', p) { SpaceRouteFrame(s, s', p); }
    forall p | p in s'.requested ensures Remembers(s', p, {}) { assert Remembers(s, p, {}); }
  }

  // ---- adding to and removing from a possibly unknown address ------------------------------

  ghost function HostsOf(s: State, ip: string): set<NodeId> {
    if ip in s.hosts then s.hosts[ip] else {}
  }

  ghost function UsersOf(s: State, ip: string): set<VNID> {
    if ip in s.users then s.users[ip] else {}
  }

  ghost function AssigneeOf(s: State, ip: string): string {
    if ip in s.assignee then s.assignee[ip] else ""
  }

  /** `addNodeEgressIP`: the address is tracked, lists the node, and is marked. */
  ghost predicate NodeAdded(s: State, s': State, n: NodeId, ip: string)
    requires n in s.nodeIPs
  {
    && s'.hosts == s.hosts[ip := HostsOf(s, ip) + {n}] && s'.users == s.users[ip := UsersOf(s, ip)]
    && s'.assignee == s.assignee[ip := AssigneeOf(s, ip)]
    && s'.nodeIP == s.nodeIP && s'.offline == s.offline && s'.nodeIPs == s.nodeIPs[n := s.nodeIPs[n] + {ip}]
    && SameSpaces(s, s') && s'.view == s.view
    && s'.changedIPs == s.changedIPs + {ip} && s'.changedNs == s.changedNs + UsersOf(s, ip)
  }

  /** `deleteNodeEgressIP`: the address no longer lists the node, and is marked. */
  ghost predicate NodeRemoved(s: State, s': State, n: NodeId, ip: string)
    requires n in s.nodeIPs && ip in s.hosts && ip in s.users
  {
    && s'.hosts == s.hosts[ip := s.hosts[ip] - {n}] && s'.users == s.users && s'.assignee == s.assignee
    && s'.nodeIP == s.nodeIP && s'.offline == s.offline && s'.nodeIPs == s.nodeIPs[n := s.nodeIPs[n] - {ip}]
    && SameSpaces(s, s') && s'.view == s.view
    && s'.changedIPs == s.changedIPs + {ip} && s'.changedNs == s.changedNs + s.users[ip]
  }

  ghost predicate SpaceAdded(s: State, s': State, o: VNID, ip: string)
    requires o in s.spaceIPs
  {
    && s'.hosts == s.hosts[ip := HostsOf(s, ip)] && s'.users == s.users[ip := UsersOf(s, ip) + {o}]
    && s'.assignee == s.assignee[ip := AssigneeOf(s, ip)] && SameNodes(s, s')
    && s'.requested == s.requested && s'.active == s.active
    && s'.spaceIPs == s.spaceIPs[o := s.spaceIPs[o] + {ip}] && s'.view == s.view
    && s'.changedIPs == s.changedIPs + {ip} && s'.changedNs == s.changedNs + UsersOf(s, ip) + {o}
  }

  ghost predicate SpaceRemoved(s: State, s': State, o: VNID, ip: string)
    requires o in s.spaceIPs && ip in s.users
  {
    && s'.hosts == s.hosts && s'.users == s.users[ip := s.users[ip] - {o}]
    && s'.assignee == s.assignee && SameNodes(s, s')
    && s'.requested == s.requested && s'.active == s.active
    && s'.spaceIPs == s.spaceIPs[o := s.spaceIPs[o] - {ip}] && s'.view == s.view
    && s'.changedIPs == s.changedIPs + {ip} && s'.changedNs == s.changedNs + s.users[ip]
  }

  ghost function WithIP(s: State, ip: string): State {
    s.(hosts := s.hosts[ip := {}], users := s.users[ip := {}], assignee := s.assignee[ip := ""],
       changedIPs := s.changedIPs + {ip})
  }

  lemma WithIPRest(s: State, s': State, n: NodeId, ip: string)
    requires n in s.nodeIPs && ip !in s.hosts && ip !in s.users && ip !in s.assignee && NodeAdded(s, s', n, ip)
    ensures NewIP(s, WithIP(s, ip), ip)
    ensures NodeAdded(WithIP(s, ip), s', n, ip)
  {
    var m := WithIP(s, ip);
    assert m.hosts[ip := HostsOf(m, ip) + {n}] == s.hosts[ip := HostsOf(s, ip) + {n}];
    assert m.users[ip := {}] == s.users[ip := {}];
    assert m.assignee[ip := ""] == s.assignee[ip := ""];
  }

  lemma NodeAddedKeepsPending(s: State, s': State, n: NodeId, ip: string, T: set<string>)
    requires Pending(s, {}) && Tight(s, T) && n in s.nodeIPs && ip !in s.nodeIPs[n]
    requires ip !in T && ip != "" && ip != "dropped" && NodeAdded(s, s', n, ip)
    ensures Pending(s', {}) && Tight(s', T + {ip})
    ensures AssigneeOf(s, ip) == "" ==> Tight(s', T)
  {
    if ip in s.hosts {
      NodeAddedKnown(s, s', n, ip, T);
    } else {
      WithIPRest(s, s', n, ip);
      NewIPKeepsPending(s, WithIP(s, ip), ip, {}, T);
      NodeAddedKnown(WithIP(s, ip), s', n, ip, T);
    }
  }

  lemma NodeAddedKnown(s: State, s': State, n: NodeId, ip: string, T: set<string>)
    requires Pending(s, {}) && Tight(s, T) && n in s.nodeIPs && ip !in s.nodeIPs[n]
    requires ip !in T && ip in s.hosts && NodeAdded(s, s', n, ip)
    ensures Pending(s', {}) && Tight(s', T + {ip})
    ensures s.assignee[ip] == "" ==> Tight(s', T)
  {
    NodeAddedMoves(s, s', n, ip);
    NodeMoveKeepsPending(s, s', n, ip, true, T);
  }

  lemma NodeAddedMoves(s: State, s': State, n: NodeId, ip: string)
    requires Shape(s) && Indexed(s.hosts, s.nodeIPs)
    requires ip in s.hosts && n in s.nodeIPs && ip !in s.nodeIPs[n]
    requires s'.changedIPs == s.changedIPs + {ip} && s'.changedNs == s.changedNs + s.users[ip]
    requires s'.hosts == s.hosts[ip := s.hosts[ip] + {n}] && s'.users == s.users[ip := s.users[ip]]
    requires s'.assignee == s.assignee[ip := s.assignee[ip]]
    requires s'.nodeIP == s.nodeIP && s'.offline == s.offline && s'.nodeIPs == s.nodeIPs[n := s.nodeIPs[n] + {ip}]
    requires SameSpaces(s, s') && s'.view == s.view
    ensures Edited(s, s', ip, {}) && NodeMoves(s, s', n, ip, true) && n !in s.hosts[ip]
  {
    assert s'.users == s.users && s'.assignee == s.assignee;
  }

  lemma NodeRemovedKeepsPending(s: State, s': State, n: NodeId, ip: string, T: set<string>)
    requires Pending(s, {}) && Tight(s, T) && n in s.nodeIPs && ip in s.hosts && n in s.hosts[ip]
    requires ip !in T && NodeRemoved(s, s', n, ip)
    ensures Pending(s', {}) && Tight(s', T + {ip})
  {
    assert Edited(s, s', ip, {});
    NodeMoveKeepsPending(s, s', n, ip, false, T);
  }

  lemma SpaceAddedMoves(s: State, s': State, o: VNID, ip: string)
    requires Shape(s) && Indexed(s.users, s.spaceIPs)
    requires ip in s.hosts && o in s.spaceIPs && ip !in s.spaceIPs[o]
    requires s'.changedIPs == s.changedIPs + {ip} && s'.changedNs == s.changedNs + s.users[ip] + {o}
    requires s'.hosts == s.hosts[ip := s.hosts[ip]] && s'.users == s.users[ip := s.users[ip] + {o}]
    requires s'.assignee == s.assignee[ip := s.assignee[ip]] && SameNodes(s, s')
    requires s'.requested == s.requested && s'.active == s.active
    requires s'.spaceIPs == s.spaceIPs[o := s.spaceIPs[o] + {ip}] && s'.view == s.view
    ensures Edited(s, s', ip, {o}) && SpaceMoves(s, s', o, ip, true) && o !in s.users[ip]
  {
    assert s'.hosts == s.hosts && s'.assignee == s.assignee;
  }

  lemma WithIPSpace(s: State, s': State, o: VNID, ip: string)
    requires o in s.spaceIPs && ip !in s.hosts && ip !in s.users && ip !in s.assignee && SpaceAdded(s, s', o, ip)
    ensures NewIP(s, WithIP(s, ip), ip)
    ensures SpaceAdded(WithIP(s, ip), s', o, ip)
  {
    var m := WithIP(s, ip);
    assert m.users[ip := UsersOf(m, ip) + {o}] == s.users[ip := UsersOf(s, ip) + {o}];
    assert m.hosts[ip := {}] == s.hosts[ip := {}];
    assert m.assignee[ip := ""] == s.assignee[ip := ""];
  }

  lemma SpaceAddedKnown(s: State, s': State, o: VNID, ip: string, T: set<string>)
    requires Pending(s, {o}) && Tight(s, T) && o in s.spaceIPs && ip !in s.spaceIPs[o]
    requires ip !in T && ip in s.hosts && SpaceAdded(s, s', o, ip)
    ensures Pending(s', {o}) && Tight(s', T + {ip}) && o in s'.changedNs
  {
    SpaceAddedMoves(s, s', o, ip);
    SpaceMoveKeepsPending(s, s', o, ip, true, T);
  }

  lemma SpaceAddedKeepsPending(s: State, s': State, o: VNID, ip: string, T: set<string>)
    requires Pending(s, {o}) && Tight(s, T) && o in s.spaceIPs && ip !in s.spaceIPs[o]
    requires ip !in T && ip != "" && ip != "dropped" && SpaceAdded(s, s', o, ip)
    ensures Pending(s', {o}) && Tight(s', T + {ip}) && o in s'.changedNs
  {
    if ip in s.hosts {
      SpaceAddedKnown(s, s', o, ip, T);
    } else {
      WithIPSpace(s, s', o, ip);
      NewIPKeepsPending(s, WithIP(s, ip), ip, {o}, T);
      SpaceAddedKnown(WithIP(s, ip), s', o, ip, T);
    }
  }

  lemma SpaceRemovedKeepsPending(s: State, s': State, o: VNID, ip: string, T: set<string>)
    requires Pending(s, {o}) && Tight(s, T) && o in s.spaceIPs && ip in s.hosts && o in s.users[ip]
    requires ip !in T && SpaceRemoved(s, s', o, ip)
    ensures Pending(s', {o}) && Tight(s', T + {ip}) && o in s'.changedNs
  {
    assert Edited(s, s', ip, {o});
    SpaceMoveKeepsPending(s, s', o, ip, false, T);
  }
}
