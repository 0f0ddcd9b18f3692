/** The proxy's endpoint filter: it hides from the handler below it the
    endpoints that the egress firewall of their namespace blocks. */
module Proxy {
  import opened Wrappers
  import opened Cidr
  import opened EgressPolicy

  // ---- firewalls ------------------------------------------------------------------

  /** The nonempty policies of a namespace by UID, and the one in force. */
  datatype Item = Item(firewalls: map<string, seq<Rule>>, active: Option<string>)

  type Firewall = map<string, Item>

  /** Some stored rule that denies contains the destination, and no rule before it does. */
  ghost predicate Refuses(rules: seq<Rule>, x: nat) {
    exists i | 0 <= i < |rules| ::
      rules[i].verdict == Deny && Contains(rules[i].to, x) && forall j | 0 <= j < i :: !Contains(rules[j].to, x)
  }

  /** The scan of one policy's stored rules. */
  method ScanRules(rules: seq<Rule>, x: nat) returns (blocks: bool)
    ensures blocks <==> Refuses(rules, x)
  {
    hide Contains;
    for i := 0 to |rules|
      invariant forall j | 0 <= j < i :: !Contains(rules[j].to, x)
    {
      if Contains(rules[i].to, x) {
        return rules[i].verdict == Deny;
      }
    }
    return false;
  }

  /** What the nonempty policies of a namespace say: nothing is blocked without
      one, everything with several, and one policy decides by its first match. */
  ghost predicate Blocks(firewalls: map<string, seq<Rule>>, x: nat) {
    firewalls != map[] && forall uid | firewalls.Keys == {uid} :: Refuses(firewalls[uid], x)
  }

  function FirewallsOf(fw: Firewall, ns: string): map<string, seq<Rule>> {
    if ns in fw then fw[ns].firewalls else map[]
  }

  ghost predicate Filled(item: Item) {
    item.firewalls != map[] && forall uid | uid in item.firewalls :: item.firewalls[uid] != []
  }

  /** A policy is active iff it is the only one. */
  ghost predicate ActiveIfOnly(item: Item) {
    && (item.active.Some? <==> |item.firewalls| == 1)
    && (item.active.Some? ==> item.active.value in item.firewalls)
  }

  /** Listed namespaces have policies, all nonempty, and one is active iff it is the only one. */
  ghost predicate Sound(fw: Firewall) {
    forall ns {:trigger fw[ns]} | ns in fw :: Filled(fw[ns]) && ActiveIfOnly(fw[ns])
  }

  lemma OneKey(m: map<string, seq<Rule>>, uid: string)
    requires |m| == 1 && uid in m
    ensures m.Keys == {uid}
  {
    assert |m.Keys| == 1;
    assert |m.Keys - {uid}| == 0;
  }

  method FirewallBlocksIP(fw: Firewall, ns: string, x: nat) returns (b: bool)
    requires Sound(fw)
    ensures b <==> Blocks(FirewallsOf(fw, ns), x)
  {
    if ns in fw {
      var item := fw[ns];
      if item.active.None? {
        assert forall uid | item.firewalls.Keys == {uid} :: |item.firewalls| == 1;
        return true;
      }
      OneKey(item.firewalls, item.active.value);
      b := ScanRules(item.firewalls[item.active.value], x);
      assert forall uid | item.firewalls.Keys == {uid} :: uid == item.active.value;
      return;
    }
    return false;
  }

  // ---- endpoints ----------------------------------------------------------------

  datatype Endpoints = Endpoints(uid: string, namespace: string, subsets: seq<seq<nat>>)

  /** Some address outside the cluster is blocked. */
  ghost predicate EndpointsBlocked(nets: seq<Cidr>, firewalls: map<string, seq<Rule>>, ep: Endpoints) {
    exists i, j | 0 <= i < |ep.subsets| && 0 <= j < |ep.subsets[i]| ::
      (forall k | 0 <= k < |nets| :: !Contains(nets[k], ep.subsets[i][j])) && Blocks(firewalls, ep.subsets[i][j])
  }

  method CheckEndpoints(nets: seq<Cidr>, fw: Firewall, ep: Endpoints) returns (b: bool)
    requires Sound(fw)
    ensures b <==> EndpointsBlocked(nets, FirewallsOf(fw, ep.namespace), ep)
  {
    hide Sound, Blocks, Contains;
    for i := 0 to |ep.subsets|
      invariant forall k, j {:trigger ep.subsets[k][j]} | 0 <= k < i && 0 <= j < |ep.subsets[k]| ::
                  !AddressBlocked(nets, FirewallsOf(fw, ep.namespace), ep.subsets[k][j])
    {
      for j := 0 to |ep.subsets[i]|
        invariant forall k | 0 <= k < j :: !AddressBlocked(nets, FirewallsOf(fw, ep.namespace), ep.subsets[i][k])
      {
        var x := ep.subsets[i][j];
        var internal := ListContains(nets, x);
        if !internal {
          var blocked := FirewallBlocksIP(fw, ep.namespace, x);
          if blocked {
            return true;
          }
        }
      }
    }
    return false;
  }

  ghost predicate AddressBlocked(nets: seq<Cidr>, firewalls: map<string, seq<Rule>>, x: nat) {
    (forall k | 0 <= k < |nets| :: !Contains(nets[k], x)) && Blocks(firewalls, x)
  }

  /** The address lies in one of the networks. */
  method ListContains(nets: seq<Cidr>, x: nat) returns (b: bool)
    ensures b <==> exists k | 0 <= k < |nets| :: Contains(nets[k], x)
  {
    for i := 0 to |nets|
      invariant forall k | 0 <= k < i :: !Contains(nets[k], x)
    {
      if Contains(nets[i], x) {
        return true;
      }
    }
    return false;
  }

  // ---- the handler below ------------------------------------------------------------

  datatype Event = Add(ep: Endpoints) | Update(ep: Endpoints) | Delete(ep: Endpoints)

  type View = map<string, Endpoints>

  /** Adds are for endpoints it does not hold, updates and deletes for ones it does. */
  predicate Fits(v: View, e: Event) {
    e.Add? <==> e.ep.uid !in v
  }

  function Apply(v: View, e: Event): View {
    if e.Delete? then v - {e.ep.uid} else v[e.ep.uid := e.ep]
  }

  /** What the handler holds after a sequence of events, if every one fits. */
  function Held(events: seq<Event>): Option<View> {
    if events == [] then Some(map[])
    else
      var e := events[|events| - 1];
      match Held(events[..|events| - 1])
      case None => None
      case Some(v) => if Fits(v, e) then Some(Apply(v, e)) else None
  }

  lemma HeldSnoc(events: seq<Event>, e: Event)
    ensures Held(events + [e]) == match Held(events)
                                  case None => None
                                  case Some(v) => if Fits(v, e) then Some(Apply(v, e)) else None
  {
    assert (events + [e])[..|events|] == events;
  }

  datatype Known = Known(endpoints: Endpoints, blocked: bool)

  type Table = map<string, Known>

  /** The known endpoints that are not blocked. */
  ghost function Visible(all: Table): View {
    map uid | uid in all && !all[uid].blocked :: all[uid].endpoints
  }

  /** The known endpoints. */
  ghost function Endpointed(all: Table): View {
    map uid | uid in all :: all[uid].endpoints
  }

  /** Each entry's mark says whether the firewall blocks it; entries of `stale` may lag behind. */
  ghost predicate Marked(nets: seq<Cidr>, fw: Firewall, all: Table, stale: set<string>) {
    forall uid {:trigger all[uid]} | uid in all ::
      && all[uid].endpoints.uid == uid
      && (uid !in stale ==>
            (all[uid].blocked
            <==> EndpointsBlocked(nets, FirewallsOf(fw, all[uid].endpoints.namespace), all[uid].endpoints)))
  }

  class OsdnProxy {
    /** Cluster networks and the service network. */
    const nets: seq<Cidr>
    var firewall: Firewall
    var allEndpoints: Table
    var ids: map<string, nat>

    ghost var events: seq<Event>

    /** The handler has seen only events that fit, and holds exactly the known
        endpoints that the current firewall does not block. */
    ghost predicate Valid()
      reads this
    {
      Sound(firewall) && Marked(nets, firewall, allEndpoints, {}) && Held(events) == Some(Visible(allEndpoints))
    }

    constructor (n: seq<Cidr>)
      ensures Valid() && nets == n && firewall == map[] && allEndpoints == map[] && ids == map[] && events == []
    {
      nets, firewall, allEndpoints, ids, events := n, map[], map[], map[], [];
    }

    /** A namespace without a known VNID counts as global. */
    predicate IsNamespaceGlobal(ns: string)
      reads this
    {
      ns in ids ==> ids[ns] == 0
    }

    method HandleAddOrUpdateNetNamespace(ns: string, netID: nat)
      requires Valid()
      modifies this`ids
      ensures Valid() && ids == old(ids)[ns := netID]
    {
      ids := ids[ns := netID];
    }

    method HandleDeleteNetNamespace(ns: string)
      requires Valid()
      modifies this`ids
      ensures Valid() && ids == old(ids) - {ns}
    {
      ids := ids - {ns};
    }

    /** Keeps the filter right exactly when the handler does not already hold the endpoints. */
    method OnEndpointsAdd(ep: Endpoints)
      requires Valid()
      modifies this`allEndpoints, this`events
      ensures Valid() <==> ep.uid in old(allEndpoints) ==> old(allEndpoints)[ep.uid].blocked
      ensures Endpointed(allEndpoints) == Endpointed(old(allEndpoints))[ep.uid := ep]
    {
      hide EndpointsBlocked, Held, Sound, Marked, Visible, Endpointed;
      var blocked := CheckEndpoints(nets, firewall, ep);
      allEndpoints := allEndpoints[ep.uid := Known(ep, blocked)];
      Entered(nets, firewall, old(allEndpoints), ep, blocked);
      VisibleAdd(old(allEndpoints), ep);
      VisibleBlocked(old(allEndpoints), ep);
      if !blocked {
        HeldSnoc(events, Add(ep));
        events := events + [Add(ep)];
      }
    }

    method OnEndpointsUpdate(ep: Endpoints)
      requires Valid()
      modifies this`allEndpoints, this`events
      ensures Valid()
      ensures Endpointed(allEndpoints) == Endpointed(old(allEndpoints))[ep.uid := ep]
    {
      hide EndpointsBlocked, Held, Sound, Marked, Visible, Endpointed;
      var pep := if ep.uid in allEndpoints then allEndpoints[ep.uid] else Known(ep, true);
      var blocked := CheckEndpoints(nets, firewall, ep);
      allEndpoints := allEndpoints[ep.uid := Known(ep, blocked)];
      Entered(nets, firewall, old(allEndpoints), ep, blocked);
      VisibleAdd(old(allEndpoints), ep);
      VisibleBlocked(old(allEndpoints), ep);
      if pep.blocked && !blocked {
        HeldSnoc(events, Add(ep));
        events := events + [Add(ep)];
      } else if !pep.blocked && !blocked {
        HeldSnoc(events, Update(ep));
        events := events + [Update(ep)];
      } else if !pep.blocked && blocked {
        HeldSnoc(events, Delete(ep));
        events := events + [Delete(ep)];
      }
    }

    method OnEndpointsDelete(ep: Endpoints)
      requires Valid()
      modifies this`allEndpoints, this`events
      ensures Valid() && allEndpoints == old(allEndpoints) - {ep.uid}
    {
      hide EndpointsBlocked, Held, Sound;
      if ep.uid !in allEndpoints {
        return;
      }
      var pep := allEndpoints[ep.uid];
      allEndpoints := allEndpoints - {ep.uid};
      assert Visible(allEndpoints) == Visible(old(allEndpoints)) - {ep.uid};
      VisibleBlocked(old(allEndpoints), ep);
      if !pep.blocked {
        HeldSnoc(events, Delete(ep));
        events := events + [Delete(ep)];
      }
    }

    /** Takes over a policy, or drops it when it has no rules, and shows or hides the
        endpoints of its namespace accordingly.  Policies of global namespaces are ignored. */
    method UpdateEgressNetworkPolicy(ns: string, policy: string, rules: seq<Rule>)
      requires Valid()
      modifies this`firewall, this`allEndpoints, this`events
      ensures Valid()
      ensures IsNamespaceGlobal(ns) ==>
                firewall == old(firewall) && allEndpoints == old(allEndpoints) && events == old(events)
      ensures !IsNamespaceGlobal(ns) ==>
                FirewallsOf(firewall, ns) == Revised(FirewallsOf(old(firewall), ns), policy, rules)
      ensures forall other | other != ns :: FirewallsOf(firewall, other) == FirewallsOf(old(firewall), other)
      ensures Endpointed(allEndpoints) == Endpointed(old(allEndpoints))
    {
      hide EndpointsBlocked, Held, Sound;
      if IsNamespaceGlobal(ns) {
        return;
      }
      firewall := RevisePolicy(firewall, ns, policy, rules);
      ghost var fw := firewall;
      var todo := allEndpoints.Keys;
      Restale(nets, old(firewall), firewall, allEndpoints, ns);
      while todo != {}
        invariant firewall == fw && todo <= allEndpoints.Keys && SameEndpoints(old(allEndpoints), allEndpoints)
        invariant Marked(nets, firewall, allEndpoints, Stale(allEndpoints, ns, todo))
        invariant Held(events) == Some(Visible(allEndpoints))
      {
        var uid :| uid in todo;
        Recheck(ns, uid, todo);
        todo := todo - {uid};
      }
      assert Stale(allEndpoints, ns, {}) == {};
      assert Endpointed(allEndpoints) == Endpointed(old(allEndpoints));
    }

    /** Looks at one entry again after the firewall of its namespace changed. */
    method Recheck(ns: string, uid: string, ghost todo: set<string>)
      requires Sound(firewall) && uid in allEndpoints && uid in todo
      requires Marked(nets, firewall, allEndpoints, Stale(allEndpoints, ns, todo))
      requires Held(events) == Some(Visible(allEndpoints))
      modifies this`allEndpoints, this`events
      ensures SameEndpoints(old(allEndpoints), allEndpoints)
      ensures Marked(nets, firewall, allEndpoints, Stale(allEndpoints, ns, todo - {uid}))
      ensures Held(events) == Some(Visible(allEndpoints))
    {
      hide EndpointsBlocked, Held, Sound;
      var pep := allEndpoints[uid];
      if pep.endpoints.namespace != ns {
        assert Stale(allEndpoints, ns, todo - {uid}) == Stale(allEndpoints, ns, todo);
        return;
      }
      var ep := pep.endpoints;
      var blocked := CheckEndpoints(nets, firewall, ep);
      allEndpoints := allEndpoints[uid := Known(ep, blocked)];
      assert Stale(allEndpoints, ns, todo - {uid}) == Stale(old(allEndpoints), ns, todo) - {uid};
      VisibleAdd(old(allEndpoints), ep);
      VisibleBlocked(old(allEndpoints), ep);
      if pep.blocked && !blocked {
        HeldSnoc(events, Add(ep));
        events := events + [Add(ep)];
      } else if !pep.blocked && blocked {
        HeldSnoc(events, Delete(ep));
        events := events + [Delete(ep)];
      } else {
        assert allEndpoints == old(allEndpoints);
      }
    }
  }

  /** The same endpoints added twice: the handler is told to add what it holds. */
  method AddTwice() returns (p: OsdnProxy)
    ensures fresh(p) && !p.Valid()
  {
    p := new OsdnProxy([]);
    var ep := Endpoints("u", "n", []);
    p.OnEndpointsAdd(ep);
    assert !EndpointsBlocked(p.nets, FirewallsOf(p.firewall, "n"), ep);
    p.OnEndpointsAdd(ep);
  }

  /** Entries of the namespace that have not been looked at again. */
  ghost function Stale(all: Table, ns: string, todo: set<string>): set<string> {
    set uid | uid in todo && uid in all && all[uid].endpoints.namespace == ns
  }

  ghost predicate SameEndpoints(all: Table, all': Table) {
    all.Keys == all'.Keys && forall uid | uid in all :: all'[uid].endpoints == all[uid].endpoints
  }

  lemma Restale(nets: seq<Cidr>, fw: Firewall, fw': Firewall, all: Table, ns: string)
    requires Marked(nets, fw, all, {})
    requires forall other | other != ns :: FirewallsOf(fw', other) == FirewallsOf(fw, other)
    ensures Marked(nets, fw', all, Stale(all, ns, all.Keys))
  {
    hide EndpointsBlocked;
  }

  function CorrectAll(rules: seq<Rule>): seq<Rule> {
    seq(|rules|, i requires 0 <= i < |rules| => Rule(rules[i].verdict, Corrected(rules[i].to)))
  }

  /** The nonempty policies of a namespace once `policy` has the given rules. */
  ghost function Revised(firewalls: map<string, seq<Rule>>, policy: string, rules: seq<Rule>): map<string, seq<Rule>> {
    if rules == [] then firewalls - {policy} else firewalls[policy := CorrectAll(rules)]
  }

  /** Sound except that the active policy of `ns` may be out of date. */
  ghost predicate Edited(fw: Firewall, ns: string) {
    forall other {:trigger fw[other]} | other in fw :: Filled(fw[other]) && (other != ns ==> ActiveIfOnly(fw[other]))
  }

  method RevisePolicy(fw: Firewall, ns: string, policy: string, rules: seq<Rule>) returns (fw': Firewall)
    requires Sound(fw)
    ensures Sound(fw') && FirewallsOf(fw', ns) == Revised(FirewallsOf(fw, ns), policy, rules)
    ensures forall other | other != ns :: FirewallsOf(fw', other) == FirewallsOf(fw, other)
  {
    hide Sound, Edited, CorrectAll;
    var list := CorrectRules(rules);
    assert |CorrectAll(rules)| == |rules| by { CorrectSize(rules); }
    fw' := EditPolicy(fw, ns, policy, list);
    fw' := Activate(fw', ns);
  }

  lemma CorrectSize(rules: seq<Rule>)
    ensures |CorrectAll(rules)| == |rules|
  {
  }

  method CorrectRules(rules: seq<Rule>) returns (list: seq<Rule>)
    ensures list == CorrectAll(rules)
  {
    list := [];
    for i := 0 to |rules|
      invariant list == CorrectAll(rules)[..i]
    {
      var to := if rules[i].to == Cidr(0, 32) then Cidr(0, 0) else rules[i].to;
      list := list + [Rule(rules[i].verdict, to)];
    }
  }

  method EditPolicy(fw: Firewall, ns: string, policy: string, list: seq<Rule>) returns (fw': Firewall)
    requires Sound(fw)
    ensures Edited(fw', ns)
    ensures FirewallsOf(fw', ns) ==
              if list == [] then FirewallsOf(fw, ns) - {policy} else FirewallsOf(fw, ns)[policy := list]
    ensures forall other | other != ns :: FirewallsOf(fw', other) == FirewallsOf(fw, other)
  {
    hide Filled, ActiveIfOnly;
    fw' := fw;
    var firewalls := FirewallsOf(fw, ns);
    if |list| > 0 {
      var active := if ns in fw then fw[ns].active else None;
      NoEmptyPolicies(fw, ns);
      FilledAfter(firewalls, policy, list, active);
      fw' := fw[ns := Item(firewalls[policy := list], active)];
    } else if ns in fw {
      var rest := firewalls - {policy};
      if |rest| == 0 {
        assert rest == map[];
        fw' := fw - {ns};
      } else {
        StillFilled(fw[ns], policy);
        fw' := fw[ns := Item(rest, fw[ns].active)];
      }
    } else {
      assert firewalls - {policy} == map[];
    }
  }

  lemma NoEmptyPolicies(fw: Firewall, ns: string)
    requires Sound(fw)
    ensures forall uid | uid in FirewallsOf(fw, ns) :: FirewallsOf(fw, ns)[uid] != []
  {
  }

  lemma FilledAfter(firewalls: map<string, seq<Rule>>, policy: string, list: seq<Rule>, active: Option<string>)
    requires list != [] && forall uid | uid in firewalls :: firewalls[uid] != []
    ensures Filled(Item(firewalls[policy := list], active))
  {
    assert policy in firewalls[policy := list];
  }

  lemma StillFilled(item: Item, policy: string)
    requires Filled(item) && |item.firewalls - {policy}| != 0
    ensures Filled(Item(item.firewalls - {policy}, item.active))
  {
  }

  method Activate(fw: Firewall, ns: string) returns (fw': Firewall)
    requires Edited(fw, ns)
    ensures Sound(fw') && forall other :: FirewallsOf(fw', other) == FirewallsOf(fw, other)
  {
    fw' := fw;
    if ns in fw' {
      var firewalls := fw'[ns].firewalls;
      if |firewalls| == 1 {
        assert |firewalls.Keys| == 1;
        var uid :| uid in firewalls.Keys;
        fw' := fw'[ns := Item(firewalls, Some(uid))];
      } else {
        fw' := fw'[ns := Item(firewalls, None)];
      }
    }
  }

  // ---- whole runs ----------------------------------------------------------------

  datatype Op =
    | AddEndpoints(ep: Endpoints)
    | UpdateEndpoints(ep: Endpoints)
    | DeleteEndpoints(ep: Endpoints)
    | SetPolicy(ns: string, policy: string, rules: seq<Rule>)
    | SetNetID(ns: string, netID: nat)
    | ForgetNetID(ns: string)

  function EndpointsStep(v: View, op: Op): View {
    match op
    case AddEndpoints(ep) => v[ep.uid := ep]
    case UpdateEndpoints(ep) => v[ep.uid := ep]
    case DeleteEndpoints(ep) => v - {ep.uid}
    case _ => v
  }

  function NetIDsStep(ids: map<string, nat>, op: Op): map<string, nat> {
    match op
    case SetNetID(ns, netID) => ids[ns := netID]
    case ForgetNetID(ns) => ids - {ns}
    case _ => ids
  }

  /** Policies of a namespace that is global, or not known, are ignored. */
  ghost function PoliciesStep(ids: map<string, nat>, firewalls: map<string, seq<Rule>>, ns: string,
                              op: Op): map<string, seq<Rule>> {
    if op.SetPolicy? && op.ns == ns && ns in ids && ids[ns] != 0 then Revised(firewalls, op.policy, op.rules)
    else firewalls
  }

  /** The endpoints that the events leave. */
  function EndpointsAfter(ops: seq<Op>): View {
    if ops == [] then map[] else EndpointsStep(EndpointsAfter(ops[..|ops| - 1]), ops[|ops| - 1])
  }

  function NetIDsAfter(ops: seq<Op>): map<string, nat> {
    if ops == [] then map[] else NetIDsStep(NetIDsAfter(ops[..|ops| - 1]), ops[|ops| - 1])
  }

  /** The nonempty policies that the events leave a namespace with. */
  ghost function PoliciesAfter(ops: seq<Op>, ns: string): map<string, seq<Rule>> {
    if ops == [] then map[]
    else PoliciesStep(NetIDsAfter(ops[..|ops| - 1]), PoliciesAfter(ops[..|ops| - 1], ns), ns, ops[|ops| - 1])
  }

  /** The endpoints that no policy in force blocks. */
  ghost function Shown(nets: seq<Cidr>, ops: seq<Op>): View {
    map uid | uid in EndpointsAfter(ops)
              && !EndpointsBlocked(nets,
                                    PoliciesAfter(ops, EndpointsAfter(ops)[uid].namespace), EndpointsAfter(ops)[uid])
            :: EndpointsAfter(ops)[uid]
  }

  /** Endpoints are added only while unknown. */
  ghost predicate Fresh(ops: seq<Op>) {
    forall i {:trigger ops[i]} | 0 <= i < |ops| && ops[i].AddEndpoints? :: ops[i].ep.uid !in EndpointsAfter(ops[..i])
  }

  ghost predicate Follows(p: OsdnProxy, ops: seq<Op>)
    reads p
  {
    && p.Valid() && Endpointed(p.allEndpoints) == EndpointsAfter(ops) && p.ids == NetIDsAfter(ops)
    && forall ns {:trigger FirewallsOf(p.firewall, ns)} :: FirewallsOf(p.firewall, ns) == PoliciesAfter(ops, ns)
  }

  /** After any run of endpoint and policy events, the handler has seen only events
      that fit, and holds exactly the endpoints that no policy in force blocks. */
  method Serve(nets: seq<Cidr>, ops: seq<Op>) returns (p: OsdnProxy)
    requires Fresh(ops)
    ensures fresh(p) && Held(p.events) == Some(Shown(nets, ops))
  {
    hide Follows, EndpointsAfter, NetIDsAfter, PoliciesAfter, Held, Shown;
    p := new OsdnProxy(nets);
    FollowsNothing(p);
    for i := 0 to |ops|
      invariant fresh(p) && p.nets == nets && Follows(p, ops[..i])
    {
      assert ops[..i + 1] == ops[..i] + [ops[i]];
      Perform(p, ops[i], ops[..i]);
    }
    assert ops[..|ops|] == ops;
    VisibleIsShown(p, ops);
  }

  lemma FollowsNothing(p: OsdnProxy)
    requires p.Valid() && p.firewall == map[] && p.allEndpoints == map[] && p.ids == map[]
    ensures Follows(p, [])
  {
  }

  lemma VisibleIsShown(p: OsdnProxy, ops: seq<Op>)
    requires Follows(p, ops)
    ensures Held(p.events) == Some(Shown(p.nets, ops))
  {
    hide EndpointsBlocked, EndpointsAfter, NetIDsAfter, PoliciesAfter, Held;
    var all := p.allEndpoints;
    assert forall uid | uid in all :: Endpointed(all)[uid] == all[uid].endpoints;
    assert Visible(all) == Shown(p.nets, ops);
  }

  method Perform(p: OsdnProxy, op: Op, ghost ops: seq<Op>)
    requires Follows(p, ops) && (op.AddEndpoints? ==> op.ep.uid !in EndpointsAfter(ops))
    modifies p
    ensures Follows(p, ops + [op])
  {
    hide EndpointsBlocked, Held, Sound, Marked, Revised, Endpointed, Visible, FirewallsOf, EndpointsAfter, NetIDsAfter,
         PoliciesAfter;
    AfterSnoc(ops, op);
    match op
    case AddEndpoints(ep) =>
      EndpointedKeys(p.allEndpoints, ep.uid);
      p.OnEndpointsAdd(ep);
    case UpdateEndpoints(ep) => p.OnEndpointsUpdate(ep);
    case DeleteEndpoints(ep) =>
      EndpointedKeys(p.allEndpoints, ep.uid);
      p.OnEndpointsDelete(ep);
    case SetPolicy(ns, policy, rules) => p.UpdateEgressNetworkPolicy(ns, policy, rules);
    case SetNetID(ns, netID) => p.HandleAddOrUpdateNetNamespace(ns, netID);
    case ForgetNetID(ns) => p.HandleDeleteNetNamespace(ns);
  }

  lemma EndpointedKeys(all: Table, uid: string)
    ensures uid in Endpointed(all) <==> uid in all
    ensures Endpointed(all - {uid}) == Endpointed(all) - {uid}
  {
  }

  lemma AfterSnoc(ops: seq<Op>, op: Op)
    ensures EndpointsAfter(ops + [op]) == EndpointsStep(EndpointsAfter(ops), op)
    ensures NetIDsAfter(ops + [op]) == NetIDsStep(NetIDsAfter(ops), op)
    ensures forall ns {:trigger PoliciesAfter(ops + [op], ns)} ::
              PoliciesAfter(ops + [op], ns) == PoliciesStep(NetIDsAfter(ops), PoliciesAfter(ops, ns), ns, op)
  {
    assert (ops + [op])[..|ops|] == ops;
  }

  /** Entering endpoints with the right mark keeps every mark right. */
  lemma Entered(nets: seq<Cidr>, fw: Firewall, all: Table, ep: Endpoints, blocked: bool)
    requires Marked(nets, fw, all, {}) && (blocked <==> EndpointsBlocked(nets, FirewallsOf(fw, ep.namespace), ep))
    ensures Marked(nets, fw, all[ep.uid := Known(ep, blocked)], {})
    ensures Endpointed(all[ep.uid := Known(ep, blocked)]) == Endpointed(all)[ep.uid := ep]
  {
    hide EndpointsBlocked;
  }

  lemma VisibleAdd(all: Table, ep: Endpoints)
    ensures Visible(all[ep.uid := Known(ep, false)]) == Visible(all)[ep.uid := ep]
  {
  }

  lemma VisibleBlocked(all: Table, ep: Endpoints)
    ensures Visible(all[ep.uid := Known(ep, true)]) == Visible(all) - {ep.uid}
    ensures ep.uid in Visible(all) <==> ep.uid in all && !all[ep.uid].blocked
    ensures ep.uid !in Visible(all) ==> Visible(all) - {ep.uid} == Visible(all)
  {
  }
}
