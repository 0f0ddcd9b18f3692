/** The records an EgressIPTracker links together, and the value of the whole
    tracker as one ghost `State`.  Records refer to each other by identity, so
    what several records share is kept shared. */
module EgressState {
  import opened Wrappers
  import opened Watcher

  /** The identity of a node object; a node that is forgotten and reappears is a
      new object. */
  type NodeId = nat

  type VNID = nat

  datatype NodeEgress = NodeEgress(
    nodeName: string,
    nodeIP: string,
    requestedIPs: set<string>,
    requestedCIDRs: set<string>,
    offline: bool)

  /** `activeEgressIP` is "" before the first announcement, "dropped", or the
      address in use. */
  datatype NamespaceEgress = NamespaceEgress(requestedIPs: seq<string>, activeEgressIP: string)

  /** `assignedNodeIP` is "" while no node is assigned. */
  datatype EgressIPInfo = EgressIPInfo(nodes: seq<NodeId>, namespaces: seq<VNID>, assignedNodeIP: string)

  /** The value of a tracker, one map per field.  An address is keyed by its
      text, a node object by its serial number and a namespace by its VNID.  `hosts` and `users` are the
      members of an address's two lists; `nodeIPs` and `spaceIPs` are the
      addresses in whose lists a node or namespace stands, which outside an
      operation are the addresses it requests. */
  datatype State = State(
    hosts: map<string, set<NodeId>>,
    users: map<string, set<VNID>>,
    assignee: map<string, string>,
    nodeIP: map<NodeId, string>,
    offline: map<NodeId, bool>,
    nodeIPs: map<NodeId, set<string>>,
    requested: map<VNID, seq<string>>,
    active: map<VNID, string>,
    spaceIPs: map<VNID, set<string>>,
    changedIPs: set<string>,
    changedNs: set<VNID>,
    view: View)

  ghost const EmptyState :=
    State(map[], map[], map[], map[], map[], map[], map[], map[], map[], {}, {}, EmptyView)

  function ToSet<T>(xs: seq<T>): set<T> {
    set x | x in xs
  }

  // ---- who requests what ---------------------------------------------------

  function RequestOf(s: State, v: VNID): seq<string> {
    if v in s.requested then s.requested[v] else []
  }

  /** All maps about one kind of object cover the same objects. */
  ghost predicate Shape(s: State) {
    && s.hosts.Keys == s.users.Keys == s.assignee.Keys
    && s.nodeIP.Keys == s.offline.Keys == s.nodeIPs.Keys
    && s.requested.Keys == s.active.Keys == s.spaceIPs.Keys
    && s.changedIPs <= s.hosts.Keys
    && s.changedNs <= s.requested.Keys
  }

  /** `x` stands in the list of `ip` iff `ip` is among the addresses of `x`. */
  ghost predicate Indexed<T>(lists: map<string, set<T>>, listed: map<T, set<string>>) {
    && (forall ip, x {:trigger x in lists[ip]} | ip in lists && x in lists[ip] :: x in listed && ip in listed[x])
    && (forall x, ip {:trigger ip in listed[x]} | x in listed && ip in listed[x] :: ip in lists && x in lists[ip])
  }

  ghost predicate Named(s: State) {
    && (forall n | n in s.nodeIP :: s.nodeIP[n] != "")
    && (forall ip | ip in s.hosts :: ip != "" && ip != "dropped")
  }

  ghost predicate Static(s: State) {
    Shape(s) && Indexed(s.hosts, s.nodeIPs) && Indexed(s.users, s.spaceIPs) && Named(s)
  }

  /** Namespaces outside `X` are listed for exactly the addresses they request. */
  ghost predicate Settled(s: State, X: set<VNID>) {
    forall o | o in s.requested && o in s.spaceIPs && o !in X :: s.spaceIPs[o] == ToSet(s.requested[o])
  }

  // ---- what the code decides from a state --------------------------------

  /** `egressIPActive`: one host, one namespace, and no other address of that
      namespace hosted alone by the same node. */
  ghost predicate Active(s: State, ip: string) {
    && ip in s.hosts && ip in s.users && |s.hosts[ip]| == 1 && |s.users[ip]| == 1
    && forall o, other {:trigger o in s.users[ip], other in s.spaceIPs[o]} |
         o in s.users[ip] && o in s.spaceIPs && other in s.spaceIPs[o] && other in s.hosts ::
         other == ip || s.hosts[other] != s.hosts[ip]
  }

  ghost predicate Contested(s: State, req: seq<string>) {
    exists ip | ip in req :: ip in s.users && |s.users[ip]| > 1
  }

  /** The address is assigned, and its host is online unless only one address is requested. */
  ghost predicate Usable(s: State, ip: string, several: bool) {
    && ip in s.hosts && ip in s.assignee && s.assignee[ip] != ""
    && (several ==> forall n | n in s.hosts[ip] && n in s.offline :: !s.offline[n])
  }

  ghost function FirstUsable(s: State, req: seq<string>, several: bool): Option<string> {
    if req == [] then None
    else if Usable(s, req[0], several) then Some(req[0])
    else FirstUsable(s, req[1..], several)
  }

  /** The route a namespace requesting `req` is to be given: the documented choice. */
  ghost function Choice(s: State, req: seq<string>): Route {
    if req == [] then Normal
    else if Contested(s, req) then Dropped
    else match FirstUsable(s, req, |req| > 1)
      case None => Dropped
      case Some(ip) => if ip in s.assignee then Via(ip, s.assignee[ip]) else Dropped
  }

  /** How NamespaceEgress.activeEgressIP records a route. */
  function TagOf(r: Route): string {
    match r
    case Normal => ""
    case Dropped => "dropped"
    case Via(ip, _) => ip
  }

  function CallFor(vnid: nat, r: Route): Call {
    match r
    case Normal => SetNormal(vnid)
    case Dropped => SetDropped(vnid)
    case Via(ip, node) => SetVia(vnid, ip, node)
  }

  // ---- what holds between operations -------------------------------------

  /** The watcher's record of an address agrees with its assignment, as far as
      the address still has one host and one namespace. */
  ghost predicate Held(s: State, ip: string)
    requires ip in s.hosts && ip in s.users && ip in s.assignee
  {
    if s.assignee[ip] == "" then ip !in s.view.held
    else
      && ip in s.view.held && s.view.held[ip].node == s.assignee[ip]
      && (|s.hosts[ip]| == 1 ==> forall n | n in s.hosts[ip] && n in s.nodeIP :: s.nodeIP[n] == s.assignee[ip])
      && (|s.users[ip]| == 1 ==> forall o | o in s.users[ip] :: o == s.view.held[ip].vnid)
  }

  ghost predicate Holds(s: State) {
    && (forall ip | ip in s.view.held :: ip in s.hosts)
    && (forall ip {:trigger Held(s, ip)} | ip in s.hosts && ip in s.users && ip in s.assignee :: Held(s, ip))
  }

  ghost predicate OneHostOneSpace(s: State, ip: string)
    requires ip in s.hosts && ip in s.users && ip in s.assignee
  {
    s.assignee[ip] != "" ==> |s.hosts[ip]| == 1 && |s.users[ip]| == 1
  }

  /** Two assigned addresses of one namespace are never on one node object. */
  ghost predicate Apart(s: State, ip: string, other: string)
    requires ip in s.hosts && ip in s.users && ip in s.assignee
    requires other in s.hosts && other in s.users && other in s.assignee
  {
    (ip != other && s.assignee[ip] != "" && s.assignee[other] != "" && s.users[ip] == s.users[other])
    ==> s.hosts[ip] != s.hosts[other]
  }

  /** An address that is the only one of its only namespace and has one host is assigned. */
  ghost predicate LoneAssigned(s: State, ip: string)
    requires ip in s.hosts && ip in s.users && ip in s.assignee
  {
    (&& |s.hosts[ip]| == 1 && |s.users[ip]| == 1
     && forall o | o in s.users[ip] && o in s.spaceIPs :: s.spaceIPs[o] == {ip})
    ==> s.assignee[ip] != ""
  }

  /** Some node or namespace asks for the address. */
  ghost predicate Wanted(s: State, ip: string)
    requires ip in s.hosts && ip in s.users
  {
    s.hosts[ip] != {} || s.users[ip] != {}
  }

  ghost predicate InOrder(s: State, ip: string)
    requires ip in s.hosts && ip in s.users && ip in s.assignee
  {
    OneHostOneSpace(s, ip) && LoneAssigned(s, ip)
  }

  /** The route in force for a namespace is its choice, and the namespace remembers it. */
  ghost predicate Routed(s: State, o: VNID)
    requires o in s.requested && o in s.active
  {
    RouteOf(s.view, o) == Choice(s, s.requested[o]) && s.active[o] == TagOf(Choice(s, s.requested[o]))
  }

  ghost predicate NoStrayRoutes(s: State) {
    forall v {:trigger RouteOf(s.view, v)} | v !in s.requested :: RouteOf(s.view, v) == Normal
  }

  ghost predicate Ordered(s: State)
    requires Shape(s)
  {
    && (forall ip {:trigger InOrder(s, ip)} | ip in s.hosts :: InOrder(s, ip))
    && (forall ip {:trigger Wanted(s, ip)} | ip in s.hosts :: Wanted(s, ip))
    && (forall ip, other {:trigger Apart(s, ip, other)} | ip in s.hosts && other in s.hosts :: Apart(s, ip, other))
  }

  ghost predicate AllRouted(s: State)
    requires Shape(s)
  {
    forall o {:trigger Routed(s, o)} | o in s.requested :: Routed(s, o)
  }

  /** The invariant of the tracker between operations. */
  ghost predicate Stable(s: State) {
    && Static(s) && Settled(s, {}) && s.changedIPs == {} && s.changedNs == {}
    && Holds(s) && NoStrayRoutes(s) && Ordered(s) && AllRouted(s)
  }
}
