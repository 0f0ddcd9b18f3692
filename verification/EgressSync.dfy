/** What one synchronisation does to a tracker's state, pass by pass, and why
    working only on the marked addresses and namespaces re-establishes the
    whole invariant. */
module EgressSync {
  import opened Wrappers
  import opened Watcher
  import opened EgressState

  // ---- the steps ------------------------------------------------------------

  /** Nobody's request and no mark changed between `s` and `s'`. */
  ghost predicate SameTables(s: State, s': State) {
    && s'.hosts == s.hosts && s'.users == s.users
    && s'.nodeIP == s.nodeIP && s'.offline == s.offline && s'.nodeIPs == s.nodeIPs
    && s'.requested == s.requested && s'.spaceIPs == s.spaceIPs
    && s'.changedIPs == s.changedIPs && s'.changedNs == s.changedNs
  }

  /** One visit of a marked address with first host `n` and first namespace `o`:
      claim it, release it, or leave it. */
  ghost predicate NodeSync(s: State, s': State, ip: string, active: bool, n: NodeId, o: VNID)
    requires ip in s.assignee && (active ==> n in s.nodeIP)
  {
    && SameTables(s, s') && s'.active == s.active
    && if active && s.assignee[ip] != s.nodeIP[n] then
         && s'.assignee == s.assignee[ip := s.nodeIP[n]]
         && s'.view == Apply(s.view, ClaimEgressIP(o, ip, s.nodeIP[n]))
       else if !active && s.assignee[ip] != "" then
         && s'.assignee == s.assignee[ip := ""]
         && s'.view == Apply(s.view, ReleaseEgressIP(ip, s.assignee[ip]))
       else s'.assignee == s.assignee && s'.view == s.view
  }

  ghost predicate Fronts(s: State, ip: string, n: NodeId, o: VNID) {
    Active(s, ip) ==> n in s.hosts[ip] && n in s.nodeIP && o in s.users[ip]
  }

  /** One visit of a marked namespace: announce route `c` if it is news. */
  ghost predicate NsSync(s: State, s': State, o: VNID, c: Route)
    requires o in s.active
  {
    && SameTables(s, s') && s'.assignee == s.assignee
    && if s.active[o] == TagOf(c) then s'.active == s.active && s'.view == s.view
       else s'.active == s.active[o := TagOf(c)] && s'.view == Apply(s.view, CallFor(o, c))
  }

  /** Address `ip` was forgotten. */
  ghost predicate DropIP(s: State, s': State, ip: string) {
    && s'.hosts == s.hosts - {ip} && s'.users == s.users - {ip} && s'.assignee == s.assignee - {ip}
    && s'.nodeIP == s.nodeIP && s'.offline == s.offline && s'.nodeIPs == s.nodeIPs
    && s'.requested == s.requested && s'.active == s.active && s'.spaceIPs == s.spaceIPs
    && s'.changedIPs == s.changedIPs && s'.changedNs == s.changedNs && s'.view == s.view
  }

  // ---- invariants of the passes -------------------------------------------

  /** Every namespace of a marked address is marked. */
  ghost predicate Marked(s: State, C: set<string>, N: set<VNID>) {
    forall ip, o {:trigger o in s.users[ip]} | ip in C && ip in s.users && o in s.users[ip] :: o in N
  }

  /** What is left alone was in order already. */
  ghost predicate RestInOrder(s: State, C: set<string>)
    requires Shape(s)
  {
    && (forall ip {:trigger InOrder(s, ip)} | ip in s.hosts && ip !in C :: InOrder(s, ip))
    && (forall ip {:trigger Wanted(s, ip)} | ip in s.hosts && ip !in C :: Wanted(s, ip))
    && (forall ip, other {:trigger Apart(s, ip, other)} |
          ip in s.hosts && other in s.hosts && ip !in C && other !in C :: Apart(s, ip, other))
  }

  /** A namespace remembers the route it was last given; a route through an
      address not yet visited still names the node that address is assigned to. */
  ghost predicate Remembers(s: State, o: VNID, D: set<string>)
    requires o in s.active
  {
    var r := RouteOf(s.view, o);
    && s.active[o] == TagOf(r)
    && (r.Via? ==> r.ip in s.assignee && r.node != ""
                   && (s.assignee[r.ip] == r.node || (r.ip in D && s.assignee[r.ip] == "")))
  }

  ghost predicate Visited(s: State, D: set<string>) {
    forall ip | ip in D :: ip in s.assignee && (s.assignee[ip] != "" <==> Active(s, ip))
  }

  /** The tables are exact and whatever is not marked is in order. */
  ghost predicate Sound(s: State, C: set<string>, N: set<VNID>) {
    && Static(s) && Settled(s, {}) && Holds(s) && NoStrayRoutes(s)
    && C <= s.hosts.Keys && N <= s.requested.Keys && Marked(s, C, N) && RestInOrder(s, C)
  }

  ghost predicate RoutesDue(s: State, N: set<VNID>, D: set<string>)
    requires Shape(s)
  {
    && (forall o {:trigger Routed(s, o)} | o in s.requested && o !in N :: Routed(s, o))
    && (forall o {:trigger Remembers(s, o, D)} | o in s.requested :: Remembers(s, o, D))
  }

  /** The marks `C`, `N` suffice; the addresses in `D` have been visited. */
  ghost predicate Due(s: State, C: set<string>, N: set<VNID>, D: set<string>) {
    Sound(s, C, N) && D <= C && Visited(s, D) && RoutesDue(s, N, D)
  }

  // ---- a choice depends only on the addresses requested and on their hosts ----

  lemma {:induction false} FirstUsableIsFirst(s: State, req: seq<string>, several: bool)
    ensures match FirstUsable(s, req, several)
            case None => forall i | 0 <= i < |req| :: !Usable(s, req[i], several)
            case Some(ip) =>
              exists i | 0 <= i < |req| ::
                req[i] == ip && Usable(s, ip, several) && forall j | 0 <= j < i :: !Usable(s, req[j], several)
  {
    if req != [] {
      if Usable(s, req[0], several) {
        assert req[0] == req[0];
      } else {
        var tail := req[1..];
        FirstUsableIsFirst(s, tail, several);
        assert forall i | 0 < i < |req| :: req[i] == tail[i - 1];
        match FirstUsable(s, tail, several)
        case None =>
        case Some(ip) =>
          var i :| 0 <= i < |tail| && tail[i] == ip && forall j | 0 <= j < i :: !Usable(s, tail[j], several);
          assert req[i + 1] == ip;
      }
    }
  }

  lemma {:induction false} FirstUsableFrame(s: State, s': State, req: seq<string>, several: bool)
    requires forall ip | ip in req :: Usable(s, ip, several) == Usable(s', ip, several)
    ensures FirstUsable(s', req, several) == FirstUsable(s, req, several)
  {
    if req != [] {
      FirstUsableFrame(s, s', req[1..], several);
    }
  }

  ghost predicate SameIP(s: State, s': State, ip: string) {
    && ip in s.hosts && ip in s'.hosts && s'.hosts[ip] == s.hosts[ip]
    && ip in s.users && ip in s'.users && s'.users[ip] == s.users[ip]
    && ip in s.assignee && ip in s'.assignee && s'.assignee[ip] == s.assignee[ip]
    && (forall n | n in s.hosts[ip] ::
          (n in s.offline <==> n in s'.offline) && (n in s.offline ==> s.offline[n] == s'.offline[n]))
  }

  lemma ChoiceFrame(s: State, s': State, req: seq<string>)
    requires forall ip | ip in req :: SameIP(s, s', ip)
    ensures Choice(s', req) == Choice(s, req)
  {
    FirstUsableFrame(s, s', req, |req| > 1);
    FirstUsableIsFirst(s, req, |req| > 1);
    var r := FirstUsable(s, req, |req| > 1);
    assert r.Some? ==> SameIP(s, s', r.value);
    assert Contested(s', req) == Contested(s, req);
  }

  /** The same, for a namespace whose request is settled. */
  lemma SettledChoiceFrame(s: State, s': State, o: VNID)
    requires o in s.requested && o in s.spaceIPs && s.spaceIPs[o] == ToSet(s.requested[o])
    requires forall ip | ip in s.spaceIPs[o] :: SameIP(s, s', ip)
    ensures Choice(s', s.requested[o]) == Choice(s, s.requested[o])
  {
    forall ip | ip in s.requested[o] ensures SameIP(s, s', ip) {
      assert ip in ToSet(s.requested[o]);
    }
    ChoiceFrame(s, s', s.requested[o]);
  }

  /** A choice through an address goes through a requested one that is assigned. */
  lemma ChoiceIsRequested(s: State, req: seq<string>)
    ensures var c := Choice(s, req);
            c.Via? ==> c.ip in req && !Contested(s, req) && c.ip in s.hosts && c.ip in s.assignee
                       && c.node == s.assignee[c.ip] && c.node != ""
  {
    FirstUsableIsFirst(s, req, |req| > 1);
  }

  // ---- pass 1: addresses -----------------------------------------------------

  /** The call a visit makes is one the protocol allows, and it leaves the
      address assigned exactly when it is active. */
  lemma NodeSyncCall(s: State, s': State, ip: string, n: NodeId, o: VNID)
    requires Shape(s) && Named(s) && ip in s.hosts && Held(s, ip) && Fronts(s, ip, n, o)
    requires NodeSync(s, s', ip, Active(s, ip), n, o)
    ensures s'.assignee[ip] != "" <==> Active(s, ip)
    ensures || (s'.assignee == s.assignee && s'.view == s.view)
            || (s.assignee[ip] == "" && Active(s, ip) && Allowed(s.view, ClaimEgressIP(o, ip, s.nodeIP[n])))
            || (s.assignee[ip] != "" && !Active(s, ip) && Allowed(s.view, ReleaseEgressIP(ip, s.assignee[ip])))
    ensures Held(s', ip)
  {
    if Active(s, ip) {
      forall m | m in s.hosts[ip] ensures m == n { SoleMember(s.hosts[ip], n, m); }
      forall p | p in s.users[ip] ensures p == o { SoleMember(s.users[ip], o, p); }
    }
  }

  lemma SoleMember<T>(S: set<T>, x: T, y: T)
    requires |S| == 1 && x in S && y in S
    ensures x == y
  {
    assert |S - {x}| == 0;
  }

  /** Only the assignment of `ip` and what the watcher holds for it changed. */
  ghost predicate Reassigned(s: State, s': State, ip: string) {
    && SameTables(s, s') && s'.active == s.active && s'.view.routes == s.view.routes
    && s'.assignee.Keys == s.assignee.Keys
    && (forall x | x in s.assignee && x != ip :: s'.assignee[x] == s.assignee[x])
    && (forall x | x != ip :: x in s'.view.held <==> x in s.view.held)
    && (forall x | x in s.view.held && x in s'.view.held && x != ip :: s'.view.held[x] == s.view.held[x])
  }

  lemma NodeSyncReassigns(s: State, s': State, ip: string, active: bool, n: NodeId, o: VNID)
    requires ip in s.assignee && (active ==> n in s.nodeIP) && NodeSync(s, s', ip, active, n, o)
    ensures Reassigned(s, s', ip)
  {
  }

  lemma ReassignHolds(s: State, s': State, ip: string)
    requires Shape(s) && Holds(s) && Reassigned(s, s', ip) && ip in s.hosts && Held(s', ip)
    ensures Holds(s')
  {
    forall x | x in s'.hosts && x in s'.users && x in s'.assignee ensures Held(s', x) {
      assert x != ip ==> Held(s, x);
    }
  }

  lemma ReassignRest(s: State, s': State, C: set<string>, ip: string)
    requires Shape(s) && RestInOrder(s, C) && Reassigned(s, s', ip) && ip in C
    ensures Shape(s') && RestInOrder(s', C)
  {
    forall x | x in s'.hosts && x !in C ensures InOrder(s', x) && Wanted(s', x) {
      assert InOrder(s, x) && Wanted(s, x);
    }
    forall x, y | x in s'.hosts && y in s'.hosts && x !in C && y !in C ensures Apart(s', x, y) {
      assert Apart(s, x, y);
    }
  }

  lemma ReassignRoute(s: State, s': State, C: set<string>, N: set<VNID>, ip: string, o: VNID)
    requires Shape(s) && Indexed(s.users, s.spaceIPs)
    requires Settled(s, {}) && Marked(s, C, N) && Reassigned(s, s', ip) && ip in C
    requires o in s.requested && o !in N && Routed(s, o)
    ensures Routed(s', o)
  {
    SettledChoiceFrame(s, s', o);
  }

  lemma ReassignVisited(s: State, s': State, D: set<string>, ip: string)
    requires Reassigned(s, s', ip) && ip in s.assignee && Visited(s, D) && (s'.assignee[ip] != "" <==> Active(s, ip))
    ensures Visited(s', D + {ip})
  {
    assert forall x :: Active(s', x) == Active(s, x);
  }

  lemma ReassignRoutesDue(s: State, s': State, C: set<string>, N: set<VNID>, D: set<string>, ip: string)
    requires Shape(s) && Indexed(s.users, s.spaceIPs)
    requires Settled(s, {}) && Marked(s, C, N) && RoutesDue(s, N, D) && Reassigned(s, s', ip) && Shape(s')
    requires ip in C && ip !in D && ip in s.assignee
    requires s.assignee[ip] != "" ==> s'.assignee[ip] == s.assignee[ip] || s'.assignee[ip] == ""
    ensures RoutesDue(s', N, D + {ip})
  {
    forall p | p in s'.requested && p !in N ensures Routed(s', p) {
      ReassignRoute(s, s', C, N, ip, p);
    }
    forall p | p in s'.requested ensures Remembers(s', p, D + {ip}) {
      assert Remembers(s, p, D);
    }
  }

  lemma ReassignSound(s: State, s': State, C: set<string>, N: set<VNID>, ip: string)
    requires Sound(s, C, N) && Reassigned(s, s', ip) && ip in C && Held(s', ip)
    ensures Sound(s', C, N)
  {
    ReassignHolds(s, s', ip);
    ReassignRest(s, s', C, ip);
    forall v | v !in s'.requested ensures RouteOf(s'.view, v) == Normal { assert RouteOf(s.view, v) == Normal; }
  }

  lemma NodeSyncKeepsDue(s: State, s': State, C: set<string>, N: set<VNID>, D: set<string>,
                         ip: string, n: NodeId, o: VNID)
    requires Due(s, C, N, D) && ip in C && ip !in D && Fronts(s, ip, n, o)
    requires NodeSync(s, s', ip, Active(s, ip), n, o)
    ensures Due(s', C, N, D + {ip})
  {
    assert Held(s, ip);
    NodeSyncCall(s, s', ip, n, o);
    NodeSyncReassigns(s, s', ip, Active(s, ip), n, o);
    ReassignSound(s, s', C, N, ip);
    ReassignVisited(s, s', D, ip);
    ReassignRoutesDue(s, s', C, N, D, ip);
  }

  // ---- pass 2: namespaces ----------------------------------------------------

  ghost predicate RoutesDone(s: State, C: set<string>, N: set<VNID>, M: set<VNID>)
    requires Shape(s)
  {
    && (forall o {:trigger Routed(s, o)} | o in s.requested && (o !in N || o in M) :: Routed(s, o))
    && (forall o {:trigger Remembers(s, o, C)} | o in s.requested :: Remembers(s, o, C))
  }

  /** All of `C` has been visited, and so have the namespaces in `M`. */
  ghost predicate Announcing(s: State, C: set<string>, N: set<VNID>, M: set<VNID>) {
    Sound(s, C, N) && Visited(s, C) && RoutesDone(s, C, N, M)
  }

  /** A route through an address goes through one its namespace holds on that node. */
  ghost predicate Grounded(s: State, o: VNID, c: Route) {
    c.Via? ==>
      && c.ip in s.assignee && c.node == s.assignee[c.ip] && c.node != "" && c.ip != "" && c.ip != "dropped"
      && c.ip in s.view.held && s.view.held[c.ip] == Holder(o, c.node)
  }

  lemma ChoiceIsGrounded(s: State, C: set<string>, N: set<VNID>, o: VNID)
    requires Sound(s, C, N) && Visited(s, C) && o in s.requested
    ensures Grounded(s, o, Choice(s, s.requested[o]))
  {
    var c := Choice(s, s.requested[o]);
    ChoiceIsRequested(s, s.requested[o]);
    if c.Via? {
      assert c.ip in s.spaceIPs[o];
      assert o in s.users[c.ip];
      assert Held(s, c.ip);
      assert c.ip !in C ==> InOrder(s, c.ip);
    }
  }

  /** The announcement of a visit is allowed and leaves the namespace routed as chosen. */
  lemma NsSyncCall(s: State, s': State, C: set<string>, o: VNID, c: Route)
    requires Shape(s) && Named(s) && o in s.active && Remembers(s, o, C) && Grounded(s, o, c) && NsSync(s, s', o, c)
    ensures s'.active[o] == TagOf(c) && RouteOf(s'.view, o) == c
    ensures (s'.active == s.active && s'.view == s.view) || Allowed(s.view, CallFor(o, c))
  {
  }

  /** Only what namespace `o` was told changed. */
  ghost predicate Retold(s: State, s': State, o: VNID) {
    && SameTables(s, s') && s'.assignee == s.assignee && s'.view.held == s.view.held
    && s'.active.Keys == s.active.Keys && (forall p | p in s.active && p != o :: s'.active[p] == s.active[p])
    && (forall v | v != o :: RouteOf(s'.view, v) == RouteOf(s.view, v))
  }

  lemma NsSyncRetells(s: State, s': State, o: VNID, c: Route)
    requires o in s.active && NsSync(s, s', o, c)
    ensures Retold(s, s', o)
  {
  }

  lemma RetoldChoice(s: State, s': State, o: VNID, req: seq<string>)
    requires Retold(s, s', o)
    ensures Choice(s', req) == Choice(s, req)
  {
    FirstUsableFrame(s, s', req, |req| > 1);
  }

  lemma NsSyncRoutes(s: State, s': State, C: set<string>, N: set<VNID>, M: set<VNID>, o: VNID)
    requires Shape(s) && Named(s) && RoutesDone(s, C, N, M)
    requires o in s.requested && Grounded(s, o, Choice(s, s.requested[o]))
    requires NsSync(s, s', o, Choice(s, s.requested[o])) && Shape(s')
    ensures RoutesDone(s', C, N, M + {o})
  {
    var c := Choice(s, s.requested[o]);
    assert Remembers(s, o, C);
    NsSyncCall(s, s', C, o, c);
    NsSyncRetells(s, s', o, c);
    forall p | p in s'.requested && (p !in N || p in M + {o}) ensures Routed(s', p) {
      RetoldChoice(s, s', o, s.requested[p]);
      assert p != o ==> Routed(s, p);
    }
    forall p | p in s'.requested ensures Remembers(s', p, C) {
      assert p != o ==> Remembers(s, p, C);
    }
  }

  lemma RetoldRest(s: State, s': State, C: set<string>, o: VNID)
    requires Shape(s) && Shape(s') && RestInOrder(s, C) && Retold(s, s', o)
    ensures RestInOrder(s', C)
  {
    forall x | x in s'.hosts && x !in C ensures InOrder(s', x) && Wanted(s', x) {
      assert InOrder(s, x) && Wanted(s, x);
    }
    forall x, y | x in s'.hosts && y in s'.hosts && x !in C && y !in C ensures Apart(s', x, y) {
      assert Apart(s, x, y);
    }
  }

  lemma RetoldSound(s: State, s': State, C: set<string>, N: set<VNID>, o: VNID)
    requires Sound(s, C, N) && Retold(s, s', o) && o in s.requested
    ensures Sound(s', C, N)
  {
    assert Shape(s');
    RetoldRest(s, s', C, o);
    forall x | x in s'.hosts && x in s'.users && x in s'.assignee ensures Held(s', x) {
      assert Held(s, x);
    }
  }

  lemma NsSyncKeepsAnnouncing(s: State, s': State, C: set<string>, N: set<VNID>, M: set<VNID>, o: VNID)
    requires Announcing(s, C, N, M) && o in N && NsSync(s, s', o, Choice(s, s.requested[o]))
    ensures Announcing(s', C, N, M + {o})
  {
    ChoiceIsGrounded(s, C, N, o);
    NsSyncRetells(s, s', o, Choice(s, s.requested[o]));
    RetoldSound(s, s', C, N, o);
    NsSyncRoutes(s, s', C, N, M, o);
    assert forall x :: Active(s', x) == Active(s, x);
  }

  // ---- pass 3: forgetting addresses nobody wants any more -----------------------

  /** All is synchronised, except that empty addresses may remain in `R`. */
  ghost predicate Synced(s: State, R: set<string>) {
    && Static(s) && Settled(s, {}) && Holds(s) && NoStrayRoutes(s)
    && (forall ip {:trigger InOrder(s, ip)} | ip in s.hosts :: InOrder(s, ip))
    && (forall ip, other {:trigger Apart(s, ip, other)} | ip in s.hosts && other in s.hosts :: Apart(s, ip, other))
    && (forall ip {:trigger Wanted(s, ip)} | ip in s.hosts && ip !in R :: Wanted(s, ip))
    && (forall o {:trigger Routed(s, o)} | o in s.requested :: Routed(s, o))
  }

  /** An active address shares its node with no other assigned address of its namespace. */
  lemma ActiveApart(s: State, ip: string, other: string)
    requires Static(s) && ip in s.hosts && other in s.hosts && Active(s, ip)
    ensures Apart(s, ip, other) && Apart(s, other, ip)
  {
    if s.users[ip] == s.users[other] {
      var o :| o in s.users[ip];
      assert other in s.spaceIPs[o];
    }
  }

  lemma ActiveInOrder(s: State, ip: string)
    requires Static(s) && ip in s.hosts && (s.assignee[ip] != "" <==> Active(s, ip))
    ensures InOrder(s, ip)
  {
  }

  lemma AnnouncedIsSynced(s: State, C: set<string>, N: set<VNID>)
    requires Announcing(s, C, N, N)
    ensures Synced(s, C)
  {
    forall ip | ip in s.hosts ensures InOrder(s, ip) {
      if ip in C { ActiveInOrder(s, ip); }
    }
    forall ip, other | ip in s.hosts && other in s.hosts ensures Apart(s, ip, other) {
      if ip in C && s.assignee[ip] != "" { ActiveApart(s, ip, other); }
      if other in C && s.assignee[other] != "" { ActiveApart(s, other, ip); }
    }
  }

  lemma DropIndexed<T>(lists: map<string, set<T>>, listed: map<T, set<string>>, ip: string)
    requires Indexed(lists, listed) && ip in lists && lists[ip] == {}
    ensures Indexed(lists - {ip}, listed)
  {
  }

  lemma DropIPRoute(s: State, s': State, ip: string, o: VNID)
    requires Shape(s) && Indexed(s.users, s.spaceIPs) && Settled(s, {})
    requires DropIP(s, s', ip) && ip in s.hosts && s.users[ip] == {} && o in s.requested && Routed(s, o)
    ensures Routed(s', o)
  {
    SettledChoiceFrame(s, s', o);
  }

  lemma DropIPStatic(s: State, s': State, ip: string)
    requires Static(s) && ip in s.hosts && s.hosts[ip] == {} && s.users[ip] == {} && ip !in s.changedIPs
    requires DropIP(s, s', ip)
    ensures Static(s')
  {
    DropIndexed(s.hosts, s.nodeIPs, ip);
    DropIndexed(s.users, s.spaceIPs, ip);
  }

  lemma DropIPOrder(s: State, s': State, ip: string)
    requires Shape(s) && Shape(s') && Holds(s) && DropIP(s, s', ip) && ip in s.hosts && s.assignee[ip] == ""
    requires forall x {:trigger InOrder(s, x)} | x in s.hosts :: InOrder(s, x)
    requires forall x, y {:trigger Apart(s, x, y)} | x in s.hosts && y in s.hosts :: Apart(s, x, y)
    ensures Holds(s') && forall x {:trigger InOrder(s', x)} | x in s'.hosts :: InOrder(s', x)
    ensures forall x, y {:trigger Apart(s', x, y)} | x in s'.hosts && y in s'.hosts :: Apart(s', x, y)
  {
    assert Held(s, ip);
    forall x | x in s'.hosts && x in s'.users && x in s'.assignee ensures Held(s', x) { assert Held(s, x); }
    forall x | x in s'.hosts ensures InOrder(s', x) { assert InOrder(s, x); }
    forall x, y | x in s'.hosts && y in s'.hosts ensures Apart(s', x, y) { assert Apart(s, x, y); }
  }

  lemma DropIPKeepsSynced(s: State, s': State, R: set<string>, ip: string)
    requires Synced(s, R) && ip in s.hosts && s.hosts[ip] == {} && s.users[ip] == {} && ip !in s.changedIPs
    requires DropIP(s, s', ip)
    ensures Synced(s', R - {ip})
  {
    assert InOrder(s, ip);
    DropIPStatic(s, s', ip);
    DropIPOrder(s, s', ip);
    forall x | x in s'.hosts && x !in R - {ip} ensures Wanted(s', x) { assert Wanted(s, x); }
    forall o | o in s'.requested ensures Routed(s', o) { DropIPRoute(s, s', ip, o); }
  }

  /** The addresses `C`, as far as they are still tracked, are assigned exactly if active. */
  ghost predicate Exact(s: State, C: set<string>) {
    forall ip | ip in C && ip in s.assignee :: s.assignee[ip] != "" <==> Active(s, ip)
  }

  lemma DropIPKeepsExact(s: State, s': State, C: set<string>, ip: string)
    requires Exact(s, C) && Shape(s) && Indexed(s.users, s.spaceIPs) && DropIP(s, s', ip)
    requires ip in s.hosts && s.users[ip] == {}
    ensures Exact(s', C)
  {
    forall x | x in s'.assignee && x in C ensures Active(s', x) == Active(s, x) {
      assert forall o | o in s.spaceIPs :: ip !in s.spaceIPs[o];
    }
  }

  /** What it means, in a state between operations, that an address is active. */
  lemma ActiveMeans(s: State, ip: string)
    requires Stable(s) && ip in s.hosts
    ensures Active(s, ip) <==>
              && |s.hosts[ip]| == 1 && |s.users[ip]| == 1
              && forall v, x | v in s.users[ip] && v in s.requested && x in s.requested[v] && x in s.hosts && x != ip ::
                   s.hosts[x] != s.hosts[ip]
  {
    forall v, x | v in s.users[ip] && v in s.requested
      ensures v in s.spaceIPs && (x in s.spaceIPs[v] <==> x in s.requested[v])
    {
      assert s.spaceIPs[v] == ToSet(s.requested[v]);
    }
  }

  lemma SyncedIsStable(s: State)
    requires Synced(s, {}) && s.changedIPs == {} && s.changedNs == {}
    ensures Stable(s)
  {
  }
}
