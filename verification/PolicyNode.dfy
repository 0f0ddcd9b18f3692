/** A node's egress policies: the lists it keeps under each VNID, moved along when
    a namespace changes its VNID, and table 101 made from them. */
module PolicyNode {
  import opened Wrappers
  import opened OpenFlow
  import opened EgressPolicy
  import opened Proxy
  import Vnids

  datatype Entry = Entry(ns: string, policy: string, rules: seq<Rule>)

  type Book = map<nat, seq<Entry>>

  function Under(b: Book, vnid: nat): seq<Entry> {
    if vnid in b then b[vnid] else []
  }

  /** The list without its first entry for the policy. */
  function Without(list: seq<Entry>, policy: string): seq<Entry> {
    if list == [] then [] else if list[0].policy == policy then list[1..] else [list[0]] + Without(list[1..], policy)
  }

  /** Where the first entry of the namespace stands, or the length. */
  function FirstOf(list: seq<Entry>, ns: string): (i: nat)
    ensures i <= |list| && (i < |list| ==> list[i].ns == ns)
  {
    if list == [] || list[0].ns == ns then 0 else 1 + FirstOf(list[1..], ns)
  }

  /** A change of VNID takes something along. */
  predicate Moves(b: Book, ns: string, from: nat, to: nat) {
    from != to && FirstOf(Under(b, from), ns) < |Under(b, from)|
  }

  /** A change of VNID takes the first policy of the namespace along. */
  function Move(b: Book, ns: string, from: nat, to: nat): Book {
    var list := Under(b, from);
    var i := FirstOf(list, ns);
    if Moves(b, ns, from, to) then b[from := list[..i] + list[i + 1..]][to := Under(b, to) + [list[i]]] else b
  }

  /** The VNID the node takes a namespace to have. */
  function At(ids: map<string, nat>, ns: string): nat {
    if ns in ids then ids[ns] else 0
  }

  /** Policies with rules replace those of the same UID, policies without are dropped;
      an unknown namespace is not served. */
  function BookStep(ids: map<string, nat>, b: Book, op: Op): Book {
    match op
    case SetPolicy(ns, policy, rules) =>
      if ns !in ids then b
      else b[ids[ns] := Without(Under(b, ids[ns]), policy) + if rules != [] then [Entry(ns, policy, rules)] else []]
    case SetNetID(ns, netID) => Move(b, ns, At(ids, ns), netID)
    case ForgetNetID(ns) => Move(b, ns, At(ids, ns), 0)
    case _ => b
  }

  function BookAfter(ops: seq<Op>): Book {
    if ops == [] then map[] else BookStep(NetIDsAfter(ops[..|ops| - 1]), BookAfter(ops[..|ops| - 1]), ops[|ops| - 1])
  }

  function AllRules(list: seq<Entry>): (r: seq<seq<Rule>>)
    ensures |r| == |list|
  {
    seq(|list|, i requires 0 <= i < |list| => list[i].rules)
  }

  // ---- what table 101 was made from --------------------------------------------------

  /** The policies of a VNID and the number of its namespaces when its flows were last made. */
  datatype Load = Load(policies: seq<seq<Rule>>, sharers: nat)

  type Loads = map<nat, Load>

  function Reload(loads: Loads, b: Book, ids: map<string, nat>, vnid: nat): Loads {
    if Under(b, vnid) != [] && vnid == 0 then loads
    else loads[vnid := Load(AllRules(Under(b, vnid)), |Vnids.Holders(ids, vnid)|)]
  }

  /** `ids` and `b` are already those after the event. */
  function MoveLoads(loads: Loads, b: Book, ids: map<string, nat>, from: nat, to: nat): Loads {
    Reload(Reload(loads, b, ids, from), b, ids, to)
  }

  /** Flows are made anew for the VNIDs whose lists the event touches. */
  function LoadsStep(ids: map<string, nat>, b: Book, loads: Loads, op: Op): Loads {
    var ids', b' := NetIDsStep(ids, op), BookStep(ids, b, op);
    match op
    case SetPolicy(ns, _, _) => if ns !in ids then loads else Reload(loads, b', ids', ids[ns])
    case SetNetID(ns, netID) =>
      if Moves(b, ns, At(ids, ns), netID) then MoveLoads(loads, b', ids', At(ids, ns), netID) else loads
    case ForgetNetID(ns) =>
      if Moves(b, ns, At(ids, ns), 0) then MoveLoads(loads, b', ids', At(ids, ns), 0) else loads
    case _ => loads
  }

  function LoadsAfter(ops: seq<Op>): Loads {
    if ops == [] then map[]
    else
      var init := ops[..|ops| - 1];
      LoadsStep(NetIDsAfter(init), BookAfter(init), LoadsAfter(init), ops[|ops| - 1])
  }

  ghost function VerdictOf(loads: Loads, vnid: nat, x: nat): Verdict {
    if vnid in loads then Meaning(loads[vnid].policies, loads[vnid].sharers, x) else Allow
  }

  /** The table decides every packet as the policies it was made from say. */
  ghost predicate Reflects(t: set<Flow<Verdict>>, loads: Loads) {
    Table101(t) && forall p | IPv4(p) :: Decides(t, p, VerdictOf(loads, p.reg0, p.dst))
  }

  lemma EmptyReflects()
    ensures Reflects({DefaultFlow()}, map[])
  {
    forall p | IPv4(p) ensures Decides({DefaultFlow()}, p, Allow) {
      DefaultMatches(p);
      FlowDecides({DefaultFlow()}, p, DefaultFlow());
    }
  }

  lemma ReloadReflects(t: set<Flow<Verdict>>, loads: Loads, policies: seq<seq<Rule>>, vnid: nat, sharers: nat)
    requires Reflects(t, loads)
    ensures Reflects(DeleteReg0(t, vnid) + FlowsFor(vnid, policies, sharers), loads[vnid := Load(policies, sharers)])
  {
    hide Decides, Meaning, FlowsFor, DeleteReg0, IPv4, Table101;
    var t', loads' := DeleteReg0(t, vnid) + FlowsFor(vnid, policies, sharers), loads[vnid := Load(policies, sharers)];
    StaysTable(t, policies, vnid, sharers);
    forall p | IPv4(p) ensures Decides(t', p, VerdictOf(loads', p.reg0, p.dst)) {
      UpdatedVerdict(t, policies, vnid, sharers, p);
      if p.reg0 != vnid {
        SameDecision(t, t', vnid, p, VerdictOf(loads, p.reg0, p.dst));
      }
    }
  }

  lemma StaysTable(t: set<Flow<Verdict>>, policies: seq<seq<Rule>>, vnid: nat, sharers: nat)
    requires Table101(t)
    ensures Table101(DeleteReg0(t, vnid) + FlowsFor(vnid, policies, sharers))
  {
  }

  /** Flows about another VNID do not matter to a packet. */
  lemma SameDecision(t: set<Flow<Verdict>>, t': set<Flow<Verdict>>, vnid: nat, p: Packet, a: Verdict)
    requires forall f: Flow<Verdict> | f.when.reg0 != Some(vnid) :: f in t' <==> f in t
    requires p.reg0 != vnid && Decides(t, p, a)
    ensures Decides(t', p, a)
  {
    var f :| Wins(t, p, f);
    forall g | Wins(t', p, g) ensures Wins(t, p, g) {
      assert f in t';
    }
    assert Wins(t', p, f);
  }

  // ---- the node ------------------------------------------------------------------------

  method Remove(policies: seq<Entry>, policy: string) returns (r: seq<Entry>)
    ensures r == Without(policies, policy)
  {
    var i := 0;
    while i < |policies| && policies[i].policy != policy
      invariant i <= |policies| && Without(policies, policy) == policies[..i] + Without(policies[i..], policy)
    {
      assert policies[i..][1..] == policies[i + 1..];
      assert policies[..i] + [policies[i]] == policies[..i + 1];
      i := i + 1;
    }
    r := if i < |policies| then policies[..i] + policies[i + 1..] else policies;
  }

  method Find(policies: seq<Entry>, ns: string) returns (i: nat)
    ensures i == FirstOf(policies, ns)
  {
    i := 0;
    while i < |policies| && policies[i].ns != ns
      invariant i <= |policies| && FirstOf(policies, ns) == i + FirstOf(policies[i..], ns)
    {
      assert policies[i..][1..] == policies[i + 1..];
      i := i + 1;
    }
  }

  class OsdnNode {
    var ids: map<string, nat>
    var egressPolicies: Book
    var table101: set<Flow<Verdict>>
    ghost var loads: Loads

    ghost predicate Valid()
      reads this
    {
      Reflects(table101, loads)
    }

    constructor ()
      ensures Valid() && ids == map[] && egressPolicies == map[] && loads == map[]
    {
      ids, egressPolicies, table101, loads := map[], map[], {DefaultFlow()}, map[];
      new;
      EmptyReflects();
    }

    method UpdateEgressNetworkPolicyRules(vnid: nat)
      requires Valid()
      modifies this`table101, this`loads
      ensures Valid() && loads == Reload(old(loads), egressPolicies, ids, vnid)
    {
      hide Reflects, FlowsFor, DeleteReg0;
      var policies, sharers := AllRules(Under(egressPolicies, vnid)), |Vnids.Holders(ids, vnid)|;
      var failed;
      table101, failed := EgressPolicy.UpdateEgressNetworkPolicyRules(table101, policies, vnid, sharers);
      if policies == [] || vnid != 0 {
        ReloadReflects(old(table101), loads, policies, vnid, sharers);
      }
      loads := Reload(loads, egressPolicies, ids, vnid);
    }

    /** A policy was added, changed, or (without rules) deleted. */
    method HandleEgressNetworkPolicy(ns: string, policy: string, rules: seq<Rule>)
      requires Valid()
      modifies this`egressPolicies, this`table101, this`loads
      ensures Valid() && egressPolicies == BookStep(ids, old(egressPolicies), SetPolicy(ns, policy, rules))
      ensures loads == LoadsStep(ids, old(egressPolicies), old(loads), SetPolicy(ns, policy, rules))
    {
      hide Reflects, Without, Reload;
      if ns !in ids { return; }
      var vnid := ids[ns];
      var policies := Remove(Under(egressPolicies, vnid), policy);
      assert policies + [] == policies;
      if rules != [] {
        policies := policies + [Entry(ns, policy, rules)];
      }
      egressPolicies := egressPolicies[vnid := policies];
      UpdateEgressNetworkPolicyRules(vnid);
    }

    /** The first policy of the namespace goes from the old VNID to the new one. */
    method UpdateEgressNetworkPolicyVNID(ns: string, from: nat, to: nat)
      requires Valid() && from != to
      modifies this`egressPolicies, this`table101, this`loads
      ensures Valid() && egressPolicies == Move(old(egressPolicies), ns, from, to)
      ensures loads == if Moves(old(egressPolicies), ns, from, to)
                       then MoveLoads(old(loads), egressPolicies, ids, from, to) else old(loads)
    {
      hide Reflects, FirstOf, AllRules;
      var policies := Under(egressPolicies, from);
      var i := Find(policies, ns);
      if i < |policies| {
        egressPolicies := egressPolicies[from := policies[..i] + policies[i + 1..]];
        UpdateEgressNetworkPolicyRules(from);
        egressPolicies := egressPolicies[to := Under(egressPolicies, to) + [policies[i]]];
        UpdateEgressNetworkPolicyRules(to);
      }
    }

    /** The namespace was added or has changed its VNID. */
    method HandleAddOrUpdateNetNamespace(ns: string, netID: nat)
      requires Valid()
      modifies this
      ensures Valid() && ids == NetIDsStep(old(ids), SetNetID(ns, netID))
      ensures egressPolicies == BookStep(old(ids), old(egressPolicies), SetNetID(ns, netID))
      ensures loads == LoadsStep(old(ids), old(egressPolicies), old(loads), SetNetID(ns, netID))
    {
      hide Reflects;
      var from := At(ids, ns);
      ids := ids[ns := netID];
      if from != netID {
        UpdateEgressNetworkPolicyVNID(ns, from, netID);
      }
    }

    method HandleDeleteNetNamespace(ns: string)
      requires Valid()
      modifies this
      ensures Valid() && ids == NetIDsStep(old(ids), ForgetNetID(ns))
      ensures egressPolicies == BookStep(old(ids), old(egressPolicies), ForgetNetID(ns))
      ensures loads == LoadsStep(old(ids), old(egressPolicies), old(loads), ForgetNetID(ns))
    {
      hide Reflects;
      var from := At(ids, ns);
      ids := ids - {ns};
      if from != 0 {
        UpdateEgressNetworkPolicyVNID(ns, from, 0);
      }
    }
  }

  /** Any run of events leaves the node with the lists of the run and a table made from them. */
  method Enforce(ops: seq<Op>) returns (n: OsdnNode)
    ensures n.ids == NetIDsAfter(ops) && n.egressPolicies == BookAfter(ops)
    ensures Reflects(n.table101, LoadsAfter(ops))
  {
    hide Reflects, BookStep, LoadsStep, NetIDsStep;
    n := new OsdnNode();
    for i := 0 to |ops|
      invariant n.Valid() && fresh(n) && n.loads == LoadsAfter(ops[..i])
      invariant n.ids == NetIDsAfter(ops[..i]) && n.egressPolicies == BookAfter(ops[..i])
    {
      assert ops[..i + 1][..i] == ops[..i];
      Perform(n, ops[i]);
    }
    assert ops[..|ops|] == ops;
  }

  method Perform(n: OsdnNode, op: Op)
    requires n.Valid()
    modifies n
    ensures n.Valid() && n.ids == NetIDsStep(old(n.ids), op)
    ensures n.egressPolicies == BookStep(old(n.ids), old(n.egressPolicies), op)
    ensures n.loads == LoadsStep(old(n.ids), old(n.egressPolicies), old(n.loads), op)
  {
    hide Reflects;
    match op
    case SetPolicy(ns, policy, rules) => n.HandleEgressNetworkPolicy(ns, policy, rules);
    case SetNetID(ns, netID) => n.HandleAddOrUpdateNetNamespace(ns, netID);
    case ForgetNetID(ns) => n.HandleDeleteNetNamespace(ns);
    case _ =>
  }
}
