/** NetworkPolicies: what they mean, and how a node compiles them to flows of
    table 80. */
module NetworkPolicy {
  import opened Wrappers
  import opened Cidr
  import opened OpenFlow

  // ---- policies ----------------------------------------------------------------

  type Labels = map<string, string>

  datatype Requirement =
    | Equals(key: string, value: string)
    | In(key: string, values: set<string>)
    | NotIn(key: string, values: set<string>)
    | Exists(key: string)
    | DoesNotExist(key: string)

  type Selector = seq<Requirement>

  predicate Meets(labels: Labels, r: Requirement) {
    match r
    case Equals(key, value) => key in labels && labels[key] == value
    case In(key, values) => key in labels && labels[key] in values
    case NotIn(key, values) => key !in labels || labels[key] !in values
    case Exists(key) => key in labels
    case DoesNotExist(key) => key !in labels
  }

  predicate Selected(sel: Selector, labels: Labels) {
    forall r | r in sel :: Meets(labels, r)
  }

  /** No port value, a named port, or a number. */
  datatype PortValue = NoPort | Named(name: string) | Number(n: int)

  datatype Port = Port(protocol: Option<string>, value: PortValue)

  /** A peer with neither selector is an IP block. */
  datatype Peer = Peer(podSelector: Option<Selector>, namespaceSelector: Option<Selector>)

  datatype Rule = Rule(ports: seq<Port>, from: seq<Peer>)

  /** A policy that affects ingress. */
  datatype Policy = Policy(podSelector: Selector, ingress: seq<Rule>)

  datatype Pod = Pod(namespace: string, labels: Labels, ip: nat)

  /** What the node knows: pods, namespace names by VNID, and namespace labels by name. */
  datatype Cluster = Cluster(pods: set<Pod>, names: map<nat, string>, labels: map<string, Labels>)

  /** No two VNIDs stand for one namespace. */
  ghost predicate OneVNIDEach(k: Cluster) {
    forall v, w {:trigger k.names[v], k.names[w]} | v in k.names && w in k.names && k.names[v] == k.names[w] :: v == w
  }

  // ---- what a policy means -------------------------------------------------------

  predicate IsPod(k: Cluster, name: string, sel: Selector, x: nat) {
    exists pod | pod in k.pods :: pod.namespace == name && Selected(sel, pod.labels) && pod.ip == x
  }

  predicate IsNamespace(k: Cluster, sel: Selector, v: nat) {
    v in k.names && k.names[v] in k.labels && Selected(sel, k.labels[k.names[v]])
  }

  /** The packet comes from the peer.  IP blocks match nothing. */
  ghost predicate FromPeer(k: Cluster, vnid: nat, name: string, peer: Peer, p: Packet) {
    match (peer.podSelector, peer.namespaceSelector)
    case (Some(pods), None) => p.reg0 == vnid && (pods == [] || (p.isIP && IsPod(k, name, pods, p.src)))
    case (None, Some(spaces)) => spaces == [] || IsNamespace(k, spaces, p.reg0)
    case (Some(pods), Some(spaces)) =>
      IsNamespace(k, spaces, p.reg0) && p.isIP && IsPod(k, k.names[p.reg0], pods, p.src)
    case (None, None) => false
  }

  function ProtoOf(name: Option<string>): Option<Proto> {
    if name == None || name == Some("TCP") then Some(TCP)
    else if name == Some("UDP") then Some(UDP)
    else if name == Some("SCTP") then Some(SCTP)
    else None
  }

  predicate Supported(port: Port) {
    ProtoOf(port.protocol).Some? && port.value.Number? && 0 <= port.value.n <= 0xFFFF
  }

  ghost predicate ToPort(port: Port, p: Packet) {
    Supported(port) && p.isIP && p.proto == ProtoOf(port.protocol) && p.port == port.value.n
  }

  ghost predicate RuleMatches(k: Cluster, vnid: nat, name: string, rule: Rule, p: Packet) {
    && (rule.from == [] || exists peer | peer in rule.from :: FromPeer(k, vnid, name, peer, p))
    && (rule.ports == [] || exists port | port in rule.ports :: ToPort(port, p))
  }

  /** The policy isolates the destination of the packet. */
  ghost predicate Isolates(k: Cluster, name: string, policy: Policy, p: Packet) {
    policy.podSelector == [] || (p.isIP && IsPod(k, name, policy.podSelector, p.dst))
  }

  ghost predicate Allows(k: Cluster, vnid: nat, name: string, policy: Policy, p: Packet) {
    Isolates(k, name, policy, p) && exists rule | rule in policy.ingress :: RuleMatches(k, vnid, name, rule, p)
  }

  ghost predicate Parses(policy: Policy) {
    forall rule | rule in policy.ingress :: forall port | port in rule.ports :: Supported(port)
  }

  // ---- parsing -----------------------------------------------------------------

  /** A parsed policy: matches to allow, and the pod addresses it selects, None for all. */
  datatype Parsed = Parsed(flows: seq<Match>, selectedIPs: Option<seq<nat>>)

  ghost predicate AnyMatch(ms: seq<Match>, p: Packet) {
    exists m | m in ms :: Matches(m, p)
  }

  /** Both matches in one; they must not test the same field for different values. */
  function Conjoin(a: Match, b: Match): Match {
    Match(if b.reg0.Some? then b.reg0 else a.reg0,
          if b.reg1.Some? then b.reg1 else a.reg1,
          if b.kind.Over? || a.kind.AnyPacket? then b.kind else a.kind,
          a.reply || b.reply,
          if b.src.Some? then b.src else a.src,
          if b.dst.Some? then b.dst else a.dst,
          if b.port.Some? then b.port else a.port)
  }

  predicate ForDest(m: Match) {
    !m.kind.Over? && !m.reply && m.reg0.None? && m.reg1.None? && m.src.None? && m.port.None?
  }

  predicate ForPeer(m: Match) {
    !m.kind.Over? && !m.reply && m.reg1.None? && m.dst.None? && m.port.None?
  }

  predicate ForPort(m: Match) {
    !m.reply && m.reg0.None? && m.reg1.None? && m.src.None? && m.dst.None?
  }

  lemma ConjoinIsAnd(d: Match, e: Match, t: Match, p: Packet)
    requires ForDest(d) && ForPeer(e) && ForPort(t)
    ensures Matches(Conjoin(Conjoin(d, e), t), p) <==> Matches(d, p) && Matches(e, p) && Matches(t, p)
  {
    hide Contains;
  }

  lemma ConjoinAnyNamespace(d: Match, e: Match, t: Match)
    requires ForDest(d) && ForPeer(e) && ForPort(t)
    ensures Conjoin(Conjoin(d, e), t).reg1 == None
  {
  }

  function HostMatch(x: nat): Cidr {
    Cidr(x, 32)
  }

  lemma HostMatchIsHost(x: nat, y: nat)
    ensures Contains(HostMatch(x), y) <==> x == y
  {
    assert Size(HostMatch(x)) == 1;
  }

  method SelectPods(k: Cluster, name: string, sel: Selector) returns (ips: seq<nat>)
    ensures forall x :: x in ips <==> IsPod(k, name, sel, x)
  {
    ips := [];
    var todo := k.pods;
    ghost var done: set<Pod> := {};
    while todo != {}
      invariant done + todo == k.pods && done !! todo
      invariant forall x ::
          x in ips <==> exists pod | pod in done :: pod.namespace == name && Selected(sel, pod.labels) && pod.ip == x
    {
      var pod :| pod in todo;
      todo, done := todo - {pod}, done + {pod};
      if pod.namespace == name && Selected(sel, pod.labels) {
        ips := ips + [pod.ip];
      }
    }
    assert done == k.pods;
  }

  method SelectNamespaces(k: Cluster, sel: Selector) returns (ms: seq<Match>)
    ensures forall m | m in ms :: ForPeer(m)
    ensures forall p :: AnyMatch(ms, p) <==> IsNamespace(k, sel, p.reg0)
  {
    ms := [];
    var todo := k.names.Keys;
    ghost var done: set<nat> := {};
    while todo != {}
      invariant done + todo == k.names.Keys && done !! todo
      invariant forall m | m in ms :: ForPeer(m)
      invariant forall p :: AnyMatch(ms, p) <==> p.reg0 in done && IsNamespace(k, sel, p.reg0)
    {
      var v :| v in todo;
      todo, done := todo - {v}, done + {v};
      if k.names[v] in k.labels && Selected(sel, k.labels[k.names[v]]) {
        var m := Everything.(reg0 := Some(v));
        AnyMatchSnoc(ms, m);
        ms := ms + [m];
      }
    }
    assert done == k.names.Keys;
  }

  lemma AnyMatchSnoc(ms: seq<Match>, m: Match)
    ensures forall p {:trigger AnyMatch(ms + [m], p)} :: AnyMatch(ms + [m], p) <==> AnyMatch(ms, p) || Matches(m, p)
  {
    hide Matches;
    forall p ensures AnyMatch(ms + [m], p) <==> AnyMatch(ms, p) || Matches(m, p) {
      assert m in ms + [m];
      if AnyMatch(ms, p) {
        var x :| x in ms && Matches(x, p);
        assert x in ms + [m];
      }
    }
  }

  lemma AnyMatchConcat(ms: seq<Match>, ns: seq<Match>)
    ensures forall p {:trigger AnyMatch(ms + ns, p)} :: AnyMatch(ms + ns, p) <==> AnyMatch(ms, p) || AnyMatch(ns, p)
  {
    hide Matches;
    forall p ensures AnyMatch(ms + ns, p) <==> AnyMatch(ms, p) || AnyMatch(ns, p) {
      if m :| m in ms && Matches(m, p) { assert m in ms + ns; }
      if m :| m in ns && Matches(m, p) { assert m in ms + ns; }
    }
  }

  function FromHost(v: nat, x: nat): Match {
    Everything.(reg0 := Some(v), kind := AnyIP, src := Some(HostMatch(x)))
  }

  lemma FromHostMatches(v: nat, x: nat, p: Packet)
    ensures Matches(FromHost(v, x), p) <==> p.reg0 == v && p.isIP && p.src == x
  {
    hide Contains;
    HostMatchIsHost(x, p.src);
  }

  lemma FromHostIsPeer(v: nat, x: nat)
    ensures ForPeer(FromHost(v, x))
  {
  }

  /** The namespaces a selector chooses, with their VNIDs; no selector chooses none. */
  method NamespacesByName(k: Cluster, sel: Option<Selector>) returns (names: map<string, nat>)
    requires OneVNIDEach(k)
    ensures forall n | n in names :: sel.Some? && IsNamespace(k, sel.value, names[n]) && k.names[names[n]] == n
    ensures sel.Some? ==> forall v | IsNamespace(k, sel.value, v) :: k.names[v] in names && names[k.names[v]] == v
  {
    names := map[];
    var todo := k.names.Keys;
    ghost var done: set<nat> := {};
    while todo != {}
      invariant done + todo == k.names.Keys && done !! todo
      invariant forall n | n in names ::
          names[n] in done && sel.Some? && IsNamespace(k, sel.value, names[n]) && k.names[names[n]] == n
      invariant sel.Some? ==> forall v | v in done && IsNamespace(k, sel.value, v) ::
          k.names[v] in names && names[k.names[v]] == v
    {
      var v :| v in todo;
      todo, done := todo - {v}, done + {v};
      if k.names[v] in k.labels && sel.Some? && Selected(sel.value, k.labels[k.names[v]]) {
        names := names[k.names[v] := v];
      }
    }
    assert done == k.names.Keys;
  }

  ghost predicate FromSelected(k: Cluster, spaces: Option<Selector>, pods: Option<Selector>, some: set<Pod>,
                               p: Packet) {
    && spaces.Some? && pods.Some? && IsNamespace(k, spaces.value, p.reg0) && p.isIP
    && exists pod | pod in some ::
        pod.namespace == k.names[p.reg0] && Selected(pods.value, pod.labels) && pod.ip == p.src
  }

  method SelectPodsFromNamespaces(k: Cluster, spaces: Option<Selector>, pods: Option<Selector>) returns (ms: seq<Match>)
    requires OneVNIDEach(k)
    ensures forall m | m in ms :: ForPeer(m)
    ensures forall p :: AnyMatch(ms, p) <==> FromSelected(k, spaces, pods, k.pods, p)
  {
    hide Matches, AnyMatch, IsNamespace, Selected, FromHost;
    ms := [];
    var names := NamespacesByName(k, spaces);
    var todo := k.pods;
    ghost var done: set<Pod> := {};
    assert forall p :: !AnyMatch([], p) by { NothingMatches(); }
    while todo != {}
      invariant done + todo == k.pods && done !! todo
      invariant forall m | m in ms :: ForPeer(m)
      invariant forall p :: AnyMatch(ms, p) <==> FromSelected(k, spaces, pods, done, p)
    {
      var pod :| pod in todo;
      todo, done := todo - {pod}, done + {pod};
      if pod.namespace in names && pods.Some? && Selected(pods.value, pod.labels) {
        var m := FromHost(names[pod.namespace], pod.ip);
        FromHostIsPeer(names[pod.namespace], pod.ip);
        forall p ensures Matches(m, p) <==> p.reg0 == names[pod.namespace] && p.isIP && p.src == pod.ip {
          FromHostMatches(names[pod.namespace], pod.ip, p);
        }
        AnyMatchSnoc(ms, m);
        assert forall p ::
            FromSelected(k, spaces, pods, done, p)
            <==> FromSelected(k, spaces, pods, done - {pod}, p) || Matches(m, p);
        ms := ms + [m];
      }
    }
    assert done == k.pods;
  }

  lemma NothingMatches()
    ensures forall p :: !AnyMatch([], p)
  {
  }

  /** The flows for one peer match exactly the packets from that peer. */
  method ParsePeer(k: Cluster, vnid: nat, name: string, peer: Peer) returns (ms: seq<Match>)
    requires OneVNIDEach(k)
    ensures forall m | m in ms :: ForPeer(m)
    ensures forall p :: AnyMatch(ms, p) <==> FromPeer(k, vnid, name, peer, p)
  {
    hide Matches, IsPod, IsNamespace;
    if peer.podSelector.Some? && peer.namespaceSelector.None? {
      if peer.podSelector.value == [] {
        ms := [Everything.(reg0 := Some(vnid))];
        forall p ensures AnyMatch(ms, p) <==> p.reg0 == vnid { OnlyVNID(vnid, p); }
      } else {
        var ips := SelectPods(k, name, peer.podSelector.value);
        ms := FromHosts(vnid, ips);
      }
    } else if peer.namespaceSelector.Some? && peer.podSelector.None? {
      if peer.namespaceSelector.value == [] {
        ms := [Everything];
        forall p ensures AnyMatch(ms, p) { MatchesAll(p); }
      } else {
        ms := SelectNamespaces(k, peer.namespaceSelector.value);
      }
    } else {
      ms := SelectPodsFromNamespaces(k, peer.namespaceSelector, peer.podSelector);
      forall p
        ensures FromSelected(k, peer.namespaceSelector, peer.podSelector, k.pods, p)
                <==> FromPeer(k, vnid, name, peer, p)
      {
        SelectedIsPeer(k, vnid, name, peer, p);
      }
    }
  }

  lemma SelectedIsPeer(k: Cluster, vnid: nat, name: string, peer: Peer, p: Packet)
    requires peer.podSelector.Some? == peer.namespaceSelector.Some?
    ensures FromSelected(k, peer.namespaceSelector, peer.podSelector, k.pods, p)
            <==> FromPeer(k, vnid, name, peer, p)
  {
    hide Selected;
  }

  lemma OnlyVNID(v: nat, p: Packet)
    ensures AnyMatch([Everything.(reg0 := Some(v))], p) <==> p.reg0 == v
  {
    var ms := [Everything.(reg0 := Some(v))];
    assert ms[0] in ms;
  }

  lemma MatchesAll(p: Packet)
    ensures AnyMatch([Everything], p) && Matches(Everything, p)
  {
    assert [Everything][0] in [Everything];
  }

  method FromHosts(vnid: nat, ips: seq<nat>) returns (ms: seq<Match>)
    ensures forall m | m in ms :: ForPeer(m)
    ensures forall p :: AnyMatch(ms, p) <==> p.reg0 == vnid && p.isIP && p.src in ips
  {
    hide Matches, AnyMatch, FromHost;
    ms := [];
    assert forall p :: !AnyMatch([], p) by { NothingMatches(); }
    for i := 0 to |ips|
      invariant forall m | m in ms :: ForPeer(m)
      invariant forall p :: AnyMatch(ms, p) <==> p.reg0 == vnid && p.isIP && p.src in ips[..i]
    {
      var m := FromHost(vnid, ips[i]);
      FromHostIsPeer(vnid, ips[i]);
      forall p ensures Matches(m, p) <==> p.reg0 == vnid && p.isIP && p.src == ips[i] {
        FromHostMatches(vnid, ips[i], p);
      }
      AnyMatchSnoc(ms, m);
      ms := ms + [m];
      assert ips[..i + 1] == ips[..i] + [ips[i]];
    }
    assert ips[..|ips|] == ips;
  }

  method ParsePeers(k: Cluster, vnid: nat, name: string, from: seq<Peer>) returns (ms: seq<Match>)
    requires OneVNIDEach(k)
    ensures forall m | m in ms :: ForPeer(m)
    ensures forall p :: AnyMatch(ms, p) <==> from == [] || exists peer | peer in from ::
        FromPeer(k, vnid, name, peer, p)
  {
    hide Matches, AnyMatch, FromPeer, OneVNIDEach;
    ms := [];
    if |from| == 0 {
      ms := [Everything];
      forall p ensures AnyMatch(ms, p) { MatchesAll(p); }
    } else {
      assert forall p :: !AnyMatch([], p) by { NothingMatches(); }
    }
    for i := 0 to |from|
      invariant forall m | m in ms :: ForPeer(m)
      invariant forall p ::
          AnyMatch(ms, p) <==> from == [] || exists peer | peer in from[..i] :: FromPeer(k, vnid, name, peer, p)
    {
      var more := ParsePeer(k, vnid, name, from[i]);
      AnyMatchConcat(ms, more);
      ms := ms + more;
      assert from[..i + 1] == from[..i] + [from[i]];
    }
    assert from[..|from|] == from;
  }

  method ParsePorts(ports: seq<Port>) returns (r: Result<seq<Match>, string>)
    ensures r.Ok? <==> forall port | port in ports :: Supported(port)
    ensures r.Ok? ==> (forall m | m in r.value :: ForPort(m))
                      && forall p :: AnyMatch(r.value, p) <==> ports == [] || exists port | port in ports ::
                          ToPort(port, p)
  {
    hide Matches, AnyMatch, ToPort;
    var ms := [];
    if |ports| == 0 {
      ms := [Everything];
      forall p ensures AnyMatch(ms, p) { MatchesAll(p); }
    } else {
      assert forall p :: !AnyMatch([], p) by { NothingMatches(); }
    }
    for i := 0 to |ports|
      invariant forall port | port in ports[..i] :: Supported(port)
      invariant forall m | m in ms :: ForPort(m)
      invariant forall p :: AnyMatch(ms, p) <==> ports == [] || exists port | port in ports[..i] :: ToPort(port, p)
    {
      var port := ports[i];
      assert ports[..i + 1] == ports[..i] + [port] && port in ports;
      var proto: Proto;
      if port.protocol.None? {
        proto := TCP;
      } else if port.protocol.value == "TCP" {
        proto := TCP;
      } else if port.protocol.value == "UDP" {
        proto := UDP;
      } else if port.protocol.value == "SCTP" {
        proto := SCTP;
      } else {
        return Err("policy specifies unrecognized protocol");
      }
      if port.value.NoPort? {
        return Err("port fields with no port value are not implemented");
      } else if !port.value.Number? {
        return Err("named port values are not implemented");
      } else if port.value.n < 0 || port.value.n > 0xFFFF {
        return Err("port value out of bounds");
      }
      var m := Everything.(kind := Over(proto), port := Some(port.value.n));
      forall p ensures Matches(m, p) <==> ToPort(port, p) { PortMatches(port, proto, p); }
      AnyMatchSnoc(ms, m);
      ms := ms + [m];
    }
    assert ports[..|ports|] == ports;
    r := Ok(ms);
  }

  lemma PortMatches(port: Port, proto: Proto, p: Packet)
    requires Supported(port) && ProtoOf(port.protocol) == Some(proto)
    ensures Matches(Everything.(kind := Over(proto), port := Some(port.value.n)), p) <==> ToPort(port, p)
  {
  }

  /** All combinations of a destination, a peer and a port. */
  method Cross(dests: seq<Match>, peers: seq<Match>, ports: seq<Match>) returns (ms: seq<Match>)
    requires forall m | m in dests :: ForDest(m)
    requires forall m | m in peers :: ForPeer(m)
    requires forall m | m in ports :: ForPort(m)
    ensures forall p :: AnyMatch(ms, p) <==> AnyMatch(dests, p) && AnyMatch(peers, p) && AnyMatch(ports, p)
    ensures forall m | m in ms :: m.reg1.None?
  {
    hide Matches, AnyMatch, Conjoin;
    ms := [];
    assert forall p :: !AnyMatch([], p) by { NothingMatches(); }
    for i := 0 to |dests|
      invariant forall p :: AnyMatch(ms, p) <==> AnyMatch(dests[..i], p) && AnyMatch(peers, p) && AnyMatch(ports, p)
      invariant forall m | m in ms :: m.reg1.None?
    {
      var more := CrossOne(dests[i], peers, ports);
      AnyMatchConcat(ms, more);
      AnyMatchSnoc(dests[..i], dests[i]);
      assert dests[..i + 1] == dests[..i] + [dests[i]];
      ms := ms + more;
    }
    assert dests[..|dests|] == dests;
  }

  method CrossOne(d: Match, peers: seq<Match>, ports: seq<Match>) returns (ms: seq<Match>)
    requires ForDest(d)
    requires forall m | m in peers :: ForPeer(m)
    requires forall m | m in ports :: ForPort(m)
    ensures forall p :: AnyMatch(ms, p) <==> Matches(d, p) && AnyMatch(peers, p) && AnyMatch(ports, p)
    ensures forall m | m in ms :: m.reg1.None?
  {
    hide Matches, AnyMatch, Conjoin;
    ms := [];
    assert forall p :: !AnyMatch([], p) by { NothingMatches(); }
    for i := 0 to |peers|
      invariant forall p :: AnyMatch(ms, p) <==> Matches(d, p) && AnyMatch(peers[..i], p) && AnyMatch(ports, p)
      invariant forall m | m in ms :: m.reg1.None?
    {
      var more := CrossTwo(d, peers[i], ports);
      AnyMatchConcat(ms, more);
      AnyMatchSnoc(peers[..i], peers[i]);
      assert peers[..i + 1] == peers[..i] + [peers[i]];
      ms := ms + more;
    }
    assert peers[..|peers|] == peers;
  }

  method CrossTwo(d: Match, e: Match, ports: seq<Match>) returns (ms: seq<Match>)
    requires ForDest(d) && ForPeer(e)
    requires forall m | m in ports :: ForPort(m)
    ensures forall p :: AnyMatch(ms, p) <==> Matches(d, p) && Matches(e, p) && AnyMatch(ports, p)
    ensures forall m | m in ms :: m.reg1.None?
  {
    hide Matches, AnyMatch, Conjoin;
    ms := [];
    assert forall p :: !AnyMatch([], p) by { NothingMatches(); }
    for i := 0 to |ports|
      invariant forall p :: AnyMatch(ms, p) <==> Matches(d, p) && Matches(e, p) && AnyMatch(ports[..i], p)
      invariant forall m | m in ms :: m.reg1.None?
    {
      var m := Conjoin(Conjoin(d, e), ports[i]);
      ConjoinAnyNamespace(d, e, ports[i]);
      forall p ensures Matches(m, p) <==> Matches(d, p) && Matches(e, p) && Matches(ports[i], p) {
        ConjoinIsAnd(d, e, ports[i], p);
      }
      AnyMatchSnoc(ms, m);
      AnyMatchSnoc(ports[..i], ports[i]);
      assert ports[..i + 1] == ports[..i] + [ports[i]];
      ms := ms + [m];
    }
    assert ports[..|ports|] == ports;
  }

  function ToHost(x: nat): Match {
    Everything.(kind := AnyIP, dst := Some(HostMatch(x)))
  }

  lemma ToHostMatches(x: nat, p: Packet)
    ensures Matches(ToHost(x), p) <==> p.isIP && p.dst == x
  {
    hide Contains;
    HostMatchIsHost(x, p.dst);
  }

  lemma ToHostIsDest(x: nat)
    ensures ForDest(ToHost(x))
  {
  }

  method ToHosts(ips: seq<nat>) returns (ms: seq<Match>)
    ensures forall m | m in ms :: ForDest(m)
    ensures forall p :: AnyMatch(ms, p) <==> p.isIP && p.dst in ips
  {
    hide Matches, AnyMatch, ToHost;
    ms := [];
    assert forall p :: !AnyMatch([], p) by { NothingMatches(); }
    for i := 0 to |ips|
      invariant forall m | m in ms :: ForDest(m)
      invariant forall p :: AnyMatch(ms, p) <==> p.isIP && p.dst in ips[..i]
    {
      ToHostIsDest(ips[i]);
      forall p ensures Matches(ToHost(ips[i]), p) <==> p.isIP && p.dst == ips[i] { ToHostMatches(ips[i], p); }
      AnyMatchSnoc(ms, ToHost(ips[i]));
      ms := ms + [ToHost(ips[i])];
      assert ips[..i + 1] == ips[..i] + [ips[i]];
    }
    assert ips[..|ips|] == ips;
  }

  /** Some pod the parsed policy selects is the destination. */
  ghost predicate Covers(npp: Parsed, p: Packet) {
    npp.selectedIPs.None? || (p.isIP && p.dst in npp.selectedIPs.value)
  }

  ghost predicate AnyRule(k: Cluster, vnid: nat, name: string, rules: seq<Rule>, p: Packet) {
    exists rule | rule in rules :: RuleMatches(k, vnid, name, rule, p)
  }

  /** The flows of a parsed policy match what the policy allows, and its selected
      addresses are what it isolates; parsing fails only on an unsupported port. */
  method ParseNetworkPolicy(k: Cluster, vnid: nat, name: string, policy: Policy) returns (r: Result<Parsed, string>)
    requires OneVNIDEach(k)
    ensures r.Ok? <==> Parses(policy)
    ensures r.Ok? ==> forall p :: Covers(r.value, p) <==> Isolates(k, name, policy, p)
    ensures r.Ok? ==> forall p :: AnyMatch(r.value.flows, p) <==> Allows(k, vnid, name, policy, p)
    ensures r.Ok? ==> forall m | m in r.value.flows :: m.reg1.None?
  {
    hide Matches, AnyMatch, IsPod, RuleMatches, OneVNIDEach, Supported;
    var dests: seq<Match>, selected: Option<seq<nat>>;
    if |policy.podSelector| > 0 {
      var ips := SelectPods(k, name, policy.podSelector);
      selected := Some(ips);
      dests := ToHosts(ips);
    } else {
      selected, dests := None, [Everything];
      forall p ensures AnyMatch(dests, p) { MatchesAll(p); }
    }
    assert forall p :: AnyMatch(dests, p) <==> Isolates(k, name, policy, p);
    var flows: seq<Match> := [];
    assert forall p :: !AnyMatch([], p) by { NothingMatches(); }
    for i := 0 to |policy.ingress|
      invariant forall rule | rule in policy.ingress[..i] :: forall port | port in rule.ports :: Supported(port)
      invariant forall p :: AnyMatch(flows, p) <==> AnyMatch(dests, p) && AnyRule(k, vnid, name, policy.ingress[..i], p)
      invariant forall m | m in flows :: m.reg1.None?
    {
      var rule := policy.ingress[i];
      assert policy.ingress[..i + 1] == policy.ingress[..i] + [rule] && rule in policy.ingress;
      var parsed := ParseRule(k, vnid, name, rule, dests);
      if parsed.Err? {
        return Err(parsed.error);
      }
      AnyMatchConcat(flows, parsed.value);
      AnyRuleSnoc(k, vnid, name, policy.ingress[..i], rule);
      flows := flows + parsed.value;
    }
    assert policy.ingress[..|policy.ingress|] == policy.ingress;
    r := Ok(Parsed(flows, selected));
  }

  lemma AnyRuleSnoc(k: Cluster, vnid: nat, name: string, rules: seq<Rule>, rule: Rule)
    ensures forall p {:trigger AnyRule(k, vnid, name, rules + [rule], p)} ::
              AnyRule(k, vnid, name, rules + [rule], p) <==> AnyRule(k, vnid, name, rules, p) || RuleMatches(k, vnid,
                  name, rule, p)
  {
    hide RuleMatches;
    forall p
      ensures AnyRule(k, vnid, name, rules + [rule], p)
              <==> AnyRule(k, vnid, name, rules, p) || RuleMatches(k, vnid, name, rule, p)
    {
      assert rule in rules + [rule];
      if x :| x in rules && RuleMatches(k, vnid, name, x, p) { assert x in rules + [rule]; }
    }
  }

  method ParseRule(k: Cluster, vnid: nat, name: string, rule: Rule, dests: seq<Match>)
    returns (r: Result<seq<Match>, string>)
    requires OneVNIDEach(k) && forall m | m in dests :: ForDest(m)
    ensures r.Ok? <==> forall port | port in rule.ports :: Supported(port)
    ensures r.Ok? ==> forall p :: AnyMatch(r.value, p) <==> AnyMatch(dests, p) && RuleMatches(k, vnid, name, rule, p)
    ensures r.Ok? ==> forall m | m in r.value :: m.reg1.None?
  {
    hide Matches, AnyMatch, FromPeer, ToPort, OneVNIDEach, Supported;
    var ports := ParsePorts(rule.ports);
    if ports.Err? {
      return Err(ports.error);
    }
    var peers := ParsePeers(k, vnid, name, rule.from);
    var ms := Cross(dests, peers, ports.value);
    r := Ok(ms);
  }

  // ---- flows of a namespace ---------------------------------------------------------

  datatype Verdict = Accept | Drop

  /** Flows that table 80 always holds: accept from the gateway, accept replies, drop the rest. */
  function FixedFlows(gateway: nat): set<Flow<Verdict>> {
    { Flow(300, Everything.(kind := AnyIP, src := Some(HostMatch(gateway))), Accept),
      Flow(200, Everything.(kind := AnyIP, reply := true), Accept),
      Flow(0, Everything, Drop) }
  }

  function AllowFlow(vnid: nat, m: Match): Flow<Verdict> {
    Flow(150, m.(reg1 := Some(vnid)), Accept)
  }

  function IsolateFlow(vnid: nat, x: nat): Flow<Verdict> {
    Flow(100, ToHost(x).(reg1 := Some(vnid)), Drop)
  }

  function OpenFlowOf(vnid: nat): Flow<Verdict> {
    Flow(50, Everything.(reg1 := Some(vnid)), Accept)
  }

  /** The flows that stand for the parsed policies of a namespace in use. */
  ghost function FlowsFor(vnid: nat, npps: set<Parsed>): set<Flow<Verdict>> {
    (set npp, m | npp in npps && m in npp.flows :: AllowFlow(vnid, m))
    + if exists npp | npp in npps :: npp.selectedIPs.None? then {}
      else (set npp, x |
              npp in npps && npp.selectedIPs.Some? && x in npp.selectedIPs.value :: IsolateFlow(vnid, x))
           + {OpenFlowOf(vnid)}
  }

  lemma AddIsUnion<A>(t: set<Flow<A>>, f: Flow<A>)
    requires forall g | g in t && g.when == f.when && g.priority == f.priority :: g == f
    ensures AddFlow(t, f) == t + {f}
  {
  }

  /** Replaces the flows of a namespace by those for its parsed policies. */
  method SyncNamespaceFlows(t: set<Flow<Verdict>>, vnid: nat, inUse: bool, npps: map<string, Parsed>)
    returns (t': set<Flow<Verdict>>)
    ensures t' == DeleteReg1(t, vnid) + if inUse then FlowsFor(vnid, npps.Values) else {}
  {
    t' := DeleteReg1(t, vnid);
    if inUse {
      var all: bool;
      t', all := AddAllowed(t', vnid, npps);
      if !all {
        t' := AddIsolated(t', vnid, npps);
        AddIsUnion(t', OpenFlowOf(vnid));
        t' := AddFlow(t', OpenFlowOf(vnid));
      }
    }
  }

  /** No flow about `vnid` yet, or only ones of the given priority and verdict. */
  ghost predicate Only(t: set<Flow<Verdict>>, vnid: nat, priorities: set<nat>) {
    forall f | f in t && f.when.reg1 == Some(vnid) ::
        f.priority in priorities && f.action == if f.priority == 150 then Accept else Drop
  }

  method AddAllowed(t: set<Flow<Verdict>>, vnid: nat, npps: map<string, Parsed>)
    returns (t': set<Flow<Verdict>>, all: bool)
    requires Only(t, vnid, {})
    ensures t' == t + set npp, m | npp in npps.Values && m in npp.flows :: AllowFlow(vnid, m)
    ensures Only(t', vnid, {150})
    ensures all <==> exists npp | npp in npps.Values :: npp.selectedIPs.None?
  {
    t', all := t, false;
    var todo := npps.Keys;
    ghost var done: set<Parsed> := {};
    while todo != {}
      invariant todo <= npps.Keys
      invariant forall npp :: npp in npps.Values <==> npp in done || exists u | u in todo :: npps[u] == npp
      invariant Only(t', vnid, {150})
      invariant t' == t + set npp, m | npp in done && m in npp.flows :: AllowFlow(vnid, m)
      invariant all <==> exists npp | npp in done :: npp.selectedIPs.None?
    {
      var u :| u in todo;
      var npp := npps[u];
      t' := AddFlows(t', vnid, npp.flows);
      if npp.selectedIPs.None? {
        all := true;
      }
      todo, done := todo - {u}, done + {npp};
    }
    assert done == npps.Values;
  }

  method AddFlows(t: set<Flow<Verdict>>, vnid: nat, ms: seq<Match>) returns (t': set<Flow<Verdict>>)
    requires Only(t, vnid, {150})
    ensures t' == (t + set m | m in ms :: AllowFlow(vnid, m)) && Only(t', vnid, {150})
  {
    t' := t;
    for i := 0 to |ms|
      invariant t' == (t + set m | m in ms[..i] :: AllowFlow(vnid, m)) && Only(t', vnid, {150})
    {
      AddIsUnion(t', AllowFlow(vnid, ms[i]));
      t' := AddFlow(t', AllowFlow(vnid, ms[i]));
      assert ms[..i + 1] == ms[..i] + [ms[i]];
    }
    assert ms[..|ms|] == ms;
  }

  /** One drop flow for each selected address, however many policies select it. */
  method AddIsolated(t: set<Flow<Verdict>>, vnid: nat, npps: map<string, Parsed>) returns (t': set<Flow<Verdict>>)
    requires Only(t, vnid, {150})
    ensures t' == t + set npp, x | npp in npps.Values && npp.selectedIPs.Some? && x in npp.selectedIPs.value ::
        IsolateFlow(vnid, x)
    ensures Only(t', vnid, {150, 100})
  {
    t' := t;
    var selected: set<nat> := {};
    var todo := npps.Keys;
    ghost var done: set<Parsed> := {};
    while todo != {}
      invariant todo <= npps.Keys
      invariant forall npp :: npp in npps.Values <==> npp in done || exists u | u in todo :: npps[u] == npp
      invariant Only(t', vnid, {150, 100})
      invariant forall x ::
          x in selected <==> exists npp | npp in done :: npp.selectedIPs.Some? && x in npp.selectedIPs.value
      invariant t' == t + set x | x in selected :: IsolateFlow(vnid, x)
    {
      var u :| u in todo;
      var npp := npps[u];
      if npp.selectedIPs.Some? {
        t', selected := IsolateAll(t, t', vnid, selected, npp.selectedIPs.value);
      }
      todo, done := todo - {u}, done + {npp};
    }
    assert done == npps.Values;
  }

  method IsolateAll(ghost t: set<Flow<Verdict>>, t1: set<Flow<Verdict>>, vnid: nat, selected: set<nat>, ips: seq<nat>)
    returns (t': set<Flow<Verdict>>, selected': set<nat>)
    requires Only(t1, vnid, {150, 100}) && t1 == t + set x | x in selected :: IsolateFlow(vnid, x)
    ensures Only(t', vnid, {150, 100}) && t' == t + set x | x in selected' :: IsolateFlow(vnid, x)
    ensures selected' == selected + set x | x in ips
  {
    t', selected' := t1, selected;
    for i := 0 to |ips|
      invariant Only(t', vnid, {150, 100}) && t' == t + set x | x in selected' :: IsolateFlow(vnid, x)
      invariant selected' == selected + set x | x in ips[..i]
    {
      if ips[i] !in selected' {
        selected' := selected' + {ips[i]};
        AddIsUnion(t', IsolateFlow(vnid, ips[i]));
        t' := AddFlow(t', IsolateFlow(vnid, ips[i]));
      }
      assert ips[..i + 1] == ips[..i] + [ips[i]];
    }
    assert ips[..|ips|] == ips;
  }

  // ---- the verdict of table 80 ------------------------------------------------------

  /** Besides its fixed flows the table holds only flows about some namespace. */
  ghost predicate Table80(t: set<Flow<Verdict>>, gateway: nat) {
    && FixedFlows(gateway) <= t
    && forall f | f in t :: f in FixedFlows(gateway) || (f.when.reg1.Some? && f.priority <= 150)
  }

  /** A packet that policy decides about: neither from the gateway nor a tracked reply. */
  predicate Ordinary(gateway: nat, p: Packet) {
    !(p.isIP && (p.src == gateway || p.reply))
  }

  ghost predicate Passes(npps: set<Parsed>, p: Packet) {
    (exists npp | npp in npps :: AnyMatch(npp.flows, p)) || forall npp | npp in npps :: !Covers(npp, p)
  }

  ghost predicate Plain(npps: set<Parsed>) {
    forall npp, m | npp in npps && m in npp.flows :: m.reg1.None?
  }

  lemma FixedVerdict(gateway: nat, p: Packet, f: Flow<Verdict>)
    requires Ordinary(gateway, p) && f in FixedFlows(gateway) && Matches(f.when, p)
    ensures f == Flow(0, Everything, Drop)
  {
    HostMatchIsHost(gateway, p.src);
  }

  lemma FixedIsLast(gateway: nat, vnid: nat)
    ensures Flow(0, Everything, Drop) in FixedFlows(gateway)
    ensures forall f | f in FixedFlows(gateway) :: f.when.reg1.None?
  {
  }

  /** The flows of a namespace decide as its parsed policies say; with none, the packet is dropped. */
  lemma SyncedVerdict(t: set<Flow<Verdict>>, gateway: nat, vnid: nat, inUse: bool, npps: set<Parsed>, p: Packet)
    requires Table80(t, gateway) && Plain(npps) && p.reg1 == vnid && Ordinary(gateway, p)
    ensures var t' := DeleteReg1(t, vnid) + if inUse then FlowsFor(vnid, npps) else {};
            Table80(t', gateway) && Decides(t', p, if inUse && Passes(npps, p) then Accept else Drop)
  {
    hide FixedFlows, FlowsFor, Matches, Passes, Covers, AnyMatch, Plain, Decides;
    var t' := DeleteReg1(t, vnid) + if inUse then FlowsFor(vnid, npps) else {};
    var last: Flow<Verdict> := Flow(0, Everything, Drop);
    FixedIsLast(gateway, vnid);
    MatchesAll(p);
    forall f | f in t' && Matches(f.when, p) ensures f == last || (inUse && f in FlowsFor(vnid, npps)) {
      if f in FixedFlows(gateway) {
        FixedVerdict(gateway, p, f);
      } else if f in t && f.when.reg1 != Some(vnid) {
        OtherNamespace(f, p);
      }
    }
    FlowsAreOwn(vnid, npps);
    if inUse {
      NamespaceVerdict(t', vnid, npps, p, last);
    } else {
      FlowDecides(t', p, last);
    }
  }

  lemma OtherNamespace(f: Flow<Verdict>, p: Packet)
    requires Matches(f.when, p)
    ensures f.when.reg1.Some? ==> f.when.reg1.value == p.reg1
  {
  }

  lemma FlowsAreOwn(vnid: nat, npps: set<Parsed>)
    ensures forall f | f in FlowsFor(vnid, npps) :: f.when.reg1 == Some(vnid) && f.priority <= 150
  {
  }

  lemma NamespaceVerdict(t: set<Flow<Verdict>>, vnid: nat, npps: set<Parsed>, p: Packet, last: Flow<Verdict>)
    requires Plain(npps) && p.reg1 == vnid && last == Flow(0, Everything, Drop) && last in t && Matches(Everything, p)
    requires FlowsFor(vnid, npps) <= t
    requires forall f | f in t && Matches(f.when, p) :: f == last || f in FlowsFor(vnid, npps)
    ensures Decides(t, p, if Passes(npps, p) then Accept else Drop)
  {
    hide Matches, Decides, Plain;
    forall f | f in FlowsFor(vnid, npps) && Matches(f.when, p) ensures Ranks(vnid, npps, p, f) {
      FlowRanks(vnid, npps, p, f);
    }
    var all := exists npp | npp in npps :: npp.selectedIPs.None?;
    if npp, m :| npp in npps && m in npp.flows && Matches(m, p) {
      assert AllowFlow(vnid, m) in FlowsFor(vnid, npps);
      AllowMatches(npps, npp, m, vnid, p);
      assert AnyMatch(npp.flows, p);
      FlowDecides(t, p, AllowFlow(vnid, m));
    } else if all {
      FlowDecides(t, p, last);
    } else if npp :| npp in npps && Covers(npp, p) {
      var f := IsolateFlow(vnid, p.dst);
      assert f in FlowsFor(vnid, npps);
      IsolateMatches(p.dst, vnid, p);
      FlowDecides(t, p, f);
    } else {
      OpenMatches(vnid, p);
      FlowDecides(t, p, OpenFlowOf(vnid));
    }
  }

  /** What a matching flow of the namespace says about the packet. */
  ghost predicate Ranks(vnid: nat, npps: set<Parsed>, p: Packet, f: Flow<Verdict>) {
    || (f.priority == 150 && f.action == Accept && exists npp, m | npp in npps && m in npp.flows :: Matches(m, p))
    || (f.priority == 100 && f.action == Drop && exists npp | npp in npps :: Covers(npp, p))
    || f == OpenFlowOf(vnid)
  }

  lemma FlowRanks(vnid: nat, npps: set<Parsed>, p: Packet, f: Flow<Verdict>)
    requires Plain(npps) && p.reg1 == vnid && f in FlowsFor(vnid, npps) && Matches(f.when, p)
    ensures Ranks(vnid, npps, p, f)
    ensures f.priority != 150 ==> forall npp | npp in npps :: npp.selectedIPs.Some?
  {
    hide Matches, Plain, ToHost;
    if npp, m :| npp in npps && m in npp.flows && f == AllowFlow(vnid, m) {
      AllowMatches(npps, npp, m, vnid, p);
    } else if npp, x :|
          npp in npps && npp.selectedIPs.Some? && x in npp.selectedIPs.value && f == IsolateFlow(vnid, x) {
      IsolateMatches(x, vnid, p);
    }
  }

  lemma AllowMatches(npps: set<Parsed>, npp: Parsed, m: Match, vnid: nat, p: Packet)
    requires Plain(npps) && npp in npps && m in npp.flows && p.reg1 == vnid
    ensures Matches(AllowFlow(vnid, m).when, p) <==> Matches(m, p)
  {
    hide Contains;
  }

  lemma IsolateMatches(x: nat, vnid: nat, p: Packet)
    requires p.reg1 == vnid
    ensures Matches(IsolateFlow(vnid, x).when, p) <==> p.isIP && p.dst == x
  {
    hide Contains;
    HostMatchIsHost(x, p.dst);
  }

  lemma OpenMatches(vnid: nat, p: Packet)
    requires p.reg1 == vnid
    ensures Matches(OpenFlowOf(vnid).when, p)
  {
  }

  // ---- from policies to verdicts -----------------------------------------------------

  /** What the policies of a namespace say about a packet to it.  A policy that does
      not parse isolates every pod and allows nothing. */
  ghost predicate Permitted(k: Cluster, vnid: nat, name: string, policies: set<Policy>, p: Packet) {
    || (exists policy | policy in policies :: Parses(policy) && Allows(k, vnid, name, policy, p))
    || (forall policy | policy in policies :: Parses(policy) && !Isolates(k, name, policy, p))
  }

  /** `npp` stands for the policy. */
  ghost predicate Stands(k: Cluster, vnid: nat, name: string, policy: Policy, npp: Parsed) {
    && (forall p {:trigger Covers(npp, p)} :: Covers(npp, p) <==> !Parses(policy) || Isolates(k, name, policy, p))
    && (forall p {:trigger AnyMatch(npp.flows, p)} ::
          AnyMatch(npp.flows, p) <==> Parses(policy) && Allows(k, vnid, name, policy, p))
    && (forall m | m in npp.flows :: m.reg1.None?)
  }

  /** Parses, or treats as deny-all. */
  method UpdateNetworkPolicy(k: Cluster, vnid: nat, name: string, policy: Policy) returns (npp: Parsed)
    requires OneVNIDEach(k)
    ensures Stands(k, vnid, name, policy, npp)
  {
    hide Matches, Parses, Isolates, Allows, OneVNIDEach;
    var r := ParseNetworkPolicy(k, vnid, name, policy);
    if r.Err? {
      npp := Parsed([], None);
    } else {
      npp := r.value;
    }
  }

  /** Compilation preserves meaning: the flows for a namespace in use accept exactly
      the ordinary packets its policies permit, and no other namespace's flow changes. */
  method CompileNamespace(k: Cluster, vnid: nat, name: string, policies: map<string, Policy>, t: set<Flow<Verdict>>,
                          gateway: nat)
    returns (t': set<Flow<Verdict>>)
    requires OneVNIDEach(k) && Table80(t, gateway)
    ensures Table80(t', gateway)
    ensures forall p: Packet | p.reg1 == vnid && Ordinary(gateway, p) ::
              Decides(t', p, if Permitted(k, vnid, name, policies.Values, p) then Accept else Drop)
    ensures forall p: Packet | p.isIP && (p.src == gateway || p.reply) :: Decides(t', p, Accept)
    ensures forall f: Flow<Verdict> | f.when.reg1 != Some(vnid) :: f in t' <==> f in t
  {
    hide Stands, Permitted, Passes, Decides, OneVNIDEach, Table80, FlowsFor, FixedFlows;
    var npps: map<string, Parsed> := map[];
    var todo := policies.Keys;
    while todo != {}
      invariant todo <= policies.Keys && npps.Keys == policies.Keys - todo
      invariant forall u | u in npps :: Stands(k, vnid, name, policies[u], npps[u])
    {
      var u :| u in todo;
      var npp := UpdateNetworkPolicy(k, vnid, name, policies[u]);
      npps, todo := npps[u := npp], todo - {u};
    }
    t' := SyncNamespaceFlows(t, vnid, true, npps);
    StandsIsPlain(k, vnid, name, policies, npps);
    FlowsAreOwn(vnid, npps.Values);
    forall p: Packet | p.reg1 == vnid && Ordinary(gateway, p)
      ensures Decides(t', p, if Permitted(k, vnid, name, policies.Values, p) then Accept else Drop)
    {
      SyncedVerdict(t, gateway, vnid, true, npps.Values, p);
      PassesIsPermitted(k, vnid, name, policies, npps, p);
    }
    SyncedTable(t, gateway, vnid, npps.Values);
    forall p: Packet | p.isIP && (p.src == gateway || p.reply) ensures Decides(t', p, Accept) {
      GatewayAndReplies(t', gateway, p);
    }
  }

  /** Packets from the gateway and replies are always accepted. */
  lemma GatewayAndReplies(t: set<Flow<Verdict>>, gateway: nat, p: Packet)
    requires Table80(t, gateway) && p.isIP && (p.src == gateway || p.reply)
    ensures Decides(t, p, Accept)
  {
    hide Decides, Pow2;
    HostMatchIsHost(gateway, p.src);
    var g: Flow<Verdict> := Flow(300, Everything.(kind := AnyIP, src := Some(HostMatch(gateway))), Accept);
    var r: Flow<Verdict> := Flow(200, Everything.(kind := AnyIP, reply := true), Accept);
    assert g in FixedFlows(gateway) && r in FixedFlows(gateway);
    FlowDecides(t, p, if p.src == gateway then g else r);
  }

  lemma SyncedTable(t: set<Flow<Verdict>>, gateway: nat, vnid: nat, npps: set<Parsed>)
    requires Table80(t, gateway)
    ensures Table80(DeleteReg1(t, vnid) + FlowsFor(vnid, npps), gateway)
  {
    hide FixedFlows, FlowsFor;
    FixedIsLast(gateway, vnid);
    FlowsAreOwn(vnid, npps);
  }

  lemma StandsIsPlain(k: Cluster, vnid: nat, name: string, policies: map<string, Policy>, npps: map<string, Parsed>)
    requires npps.Keys == policies.Keys && forall u | u in npps :: Stands(k, vnid, name, policies[u], npps[u])
    ensures Plain(npps.Values)
  {
    hide Covers, AnyMatch, Allows, Isolates, Parses;
  }

  lemma PassesIsPermitted(k: Cluster, vnid: nat, name: string, policies: map<string, Policy>, npps: map<string, Parsed>,
                          p: Packet)
    requires npps.Keys == policies.Keys && forall u | u in npps :: Stands(k, vnid, name, policies[u], npps[u])
    ensures Passes(npps.Values, p) <==> Permitted(k, vnid, name, policies.Values, p)
  {
    hide Covers, AnyMatch, Allows, Isolates, Parses;
    if npp :| npp in npps.Values && AnyMatch(npp.flows, p) {
      var u :| u in npps && npps[u] == npp;
      assert policies[u] in policies.Values;
    }
    if policy :| policy in policies.Values && Parses(policy) && Allows(k, vnid, name, policy, p) {
      var u :| u in policies && policies[u] == policy;
      assert npps[u] in npps.Values && AnyMatch(npps[u].flows, p);
    }
    if forall npp | npp in npps.Values :: !Covers(npp, p) {
      forall policy | policy in policies.Values ensures Parses(policy) && !Isolates(k, name, policy, p) {
        var u :| u in policies && policies[u] == policy;
        assert npps[u] in npps.Values && !Covers(npps[u], p);
      }
    }
    if forall policy | policy in policies.Values :: Parses(policy) && !Isolates(k, name, policy, p) {
      forall npp | npp in npps.Values ensures !Covers(npp, p) {
        var u :| u in npps && npps[u] == npp;
        assert policies[u] in policies.Values;
      }
    }
  }
}
