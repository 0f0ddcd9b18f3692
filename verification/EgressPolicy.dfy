/** EgressNetworkPolicies of CIDR rules: the first rule that matches a
    destination decides, and the flows of table 101 that say so. */
module EgressPolicy {
  import opened Wrappers
  import opened Cidr
  import opened OpenFlow

  datatype Verdict = Allow | Deny

  datatype Rule = Rule(verdict: Verdict, to: Cidr)

  /** "0.0.0.0/32" is taken to mean "0.0.0.0/0". */
  function Corrected(c: Cidr): Cidr {
    if c == Cidr(0, 32) then Cidr(0, 0) else c
  }

  predicate RuleHits(r: Rule, x: nat) {
    Contains(Corrected(r.to), x)
  }

  /** A rule is about the addresses of its block; "0.0.0.0/32" is about all. */
  lemma RuleHitsBlock(r: Rule, x: nat)
    requires IsBlock(r.to) && x < Pow2(32)
    ensures RuleHits(r, x) <==> r.to == Cidr(0, 32) || r.to.addr <= x < r.to.addr + Size(r.to)
  {
    hide Pow2;
    ContainsIsInterval(r.to, x);
    EverythingContains(x);
  }

  /** The first rule that matches decides; without one, the destination is allowed. */
  function FirstMatch(rules: seq<Rule>, x: nat): Verdict {
    if rules == [] then Allow
    else if RuleHits(rules[0], x) then rules[0].verdict
    else FirstMatch(rules[1..], x)
  }

  lemma {:induction false} FirstMatchIsFirst(rules: seq<Rule>, x: nat, i: nat)
    requires i < |rules| && RuleHits(rules[i], x) && forall j | 0 <= j < i :: !RuleHits(rules[j], x)
    ensures FirstMatch(rules, x) == rules[i].verdict
    decreases |rules|
  {
    if i > 0 {
      FirstMatchIsFirst(rules[1..], x, i - 1);
    }
  }

  lemma {:induction false} NoMatchAllows(rules: seq<Rule>, x: nat)
    requires forall j | 0 <= j < |rules| :: !RuleHits(rules[j], x)
    ensures FirstMatch(rules, x) == Allow
    decreases |rules|
  {
    if rules != [] {
      NoMatchAllows(rules[1..], x);
    }
  }

  // ---- table 101 ------------------------------------------------------------------

  /** The flow that lets everything out. */
  function DefaultFlow(): Flow<Verdict> {
    Flow(0, Everything, Allow)
  }

  function DropAll(vnid: nat): Flow<Verdict> {
    Flow(1, Everything.(reg0 := Some(vnid)), Deny)
  }

  function RuleFlow(vnid: nat, priority: nat, r: Rule): Flow<Verdict> {
    var dst := if r.to == Cidr(0, 0) then None else if r.to == Cidr(0, 32) then None else Some(r.to);
    Flow(priority, Everything.(reg0 := Some(vnid), kind := AnyIP, dst := dst), r.verdict)
  }

  /** An IPv4 packet carries 32-bit addresses. */
  predicate IPv4(p: Packet) {
    p.isIP && p.dst < Pow2(32)
  }

  lemma RuleFlowMatches(vnid: nat, priority: nat, r: Rule, p: Packet)
    requires IPv4(p)
    ensures Matches(RuleFlow(vnid, priority, r).when, p) <==> p.reg0 == vnid && RuleHits(r, p.dst)
  {
    hide Pow2;
    EverythingContains(p.dst);
  }

  lemma EverythingContains(x: nat)
    requires x < Pow2(32)
    ensures Contains(Cidr(0, 0), x)
  {
    hide Pow2;
    SameQuotient(0, Pow2(32), x);
  }

  /** One flow per rule, earlier rules with higher priority. */
  ghost function RuleFlows(vnid: nat, rules: seq<Rule>, n: nat): set<Flow<Verdict>>
    requires n <= |rules|
  {
    set i | 0 <= i < n :: RuleFlow(vnid, |rules| - i, rules[i])
  }

  /** What the flows of a VNID are to be, given its policies and the number of namespaces that share it. */
  ghost function FlowsFor(vnid: nat, policies: seq<seq<Rule>>, sharers: nat): set<Flow<Verdict>> {
    if |policies| == 0 then {}
    else if sharers > 1 || |policies| > 1 then {DropAll(vnid)}
    else RuleFlows(vnid, policies[0], |policies[0]|)
  }

  /** Besides its default flow the table holds only flows about some VNID. */
  ghost predicate Table101(t: set<Flow<Verdict>>) {
    DefaultFlow() in t && forall f | f in t :: f == DefaultFlow() || f.when.reg0.Some?
  }

  /** Replaces the flows of the VNID; policies for VNID 0 are ignored and reported. */
  method UpdateEgressNetworkPolicyRules(t: set<Flow<Verdict>>, policies: seq<seq<Rule>>, vnid: nat, sharers: nat)
    returns (t': set<Flow<Verdict>>, failed: bool)
    ensures failed <==> policies != [] && (vnid == 0 || sharers > 1 || |policies| > 1)
    ensures t' == if policies != [] && vnid == 0 then t else DeleteReg0(t, vnid) + FlowsFor(vnid, policies, sharers)
  {
    failed := false;
    if |policies| == 0 {
      t' := DeleteReg0(t, vnid);
    } else if vnid == 0 {
      t', failed := t, true;
    } else if sharers > 1 {
      failed := true;
      t' := AddFlow(DeleteReg0(t, vnid), DropAll(vnid));
      assert forall f | f in DeleteReg0(t, vnid) :: f.when != DropAll(vnid).when;
    } else if |policies| > 1 {
      failed := true;
      t' := AddFlow(DeleteReg0(t, vnid), DropAll(vnid));
      assert forall f | f in DeleteReg0(t, vnid) :: f.when != DropAll(vnid).when;
    } else {
      t' := AddRules(DeleteReg0(t, vnid), vnid, policies[0]);
    }
  }

  method AddRules(t: set<Flow<Verdict>>, vnid: nat, rules: seq<Rule>) returns (t': set<Flow<Verdict>>)
    requires forall f | f in t :: f.when.reg0 != Some(vnid)
    ensures t' == t + RuleFlows(vnid, rules, |rules|)
  {
    t' := t;
    for i := 0 to |rules|
      invariant t' == t + RuleFlows(vnid, rules, i)
    {
      var f := RuleFlow(vnid, |rules| - i, rules[i]);
      assert forall g | g in t' :: g in t || g.priority > |rules| - i;
      assert RuleFlows(vnid, rules, i + 1) == RuleFlows(vnid, rules, i) + {f};
      t' := AddFlow(t', f);
    }
  }

  /** What the policies of a VNID say about a destination. */
  ghost function Meaning(policies: seq<seq<Rule>>, sharers: nat, x: nat): Verdict {
    if |policies| == 0 then Allow
    else if sharers > 1 || |policies| > 1 then Deny
    else FirstMatch(policies[0], x)
  }

  /** After an update, the table decides every packet of the VNID as the policies
      say, whatever the table held before, and holds the same flows for other VNIDs. */
  lemma UpdatedVerdict(t: set<Flow<Verdict>>, policies: seq<seq<Rule>>, vnid: nat, sharers: nat, p: Packet)
    requires Table101(t) && IPv4(p)
    ensures var t' := DeleteReg0(t, vnid) + FlowsFor(vnid, policies, sharers);
            && Table101(t') && (p.reg0 == vnid ==> Decides(t', p, Meaning(policies, sharers, p.dst)))
            && forall f: Flow<Verdict> | f.when.reg0 != Some(vnid) :: f in t' <==> f in t
  {
    hide Matches, Decides, RuleHits, FirstMatch, IPv4;
    var t' := DeleteReg0(t, vnid) + FlowsFor(vnid, policies, sharers);
    DefaultMatches(p);
    forall f | f in t && Matches(f.when, p) && f.when.reg0.Some?
      ensures f.when.reg0 == Some(p.reg0)
    {
      TestsReg0(f, p);
    }
    if p.reg0 == vnid {
      if |policies| == 0 {
        FlowDecides(t', p, DefaultFlow());
      } else if sharers > 1 || |policies| > 1 {
        DropAllMatches(vnid, p);
        FlowDecides(t', p, DropAll(vnid));
      } else {
        RulesDecide(t', policies[0], vnid, p);
      }
    }
  }

  lemma DefaultMatches(p: Packet)
    ensures Matches(DefaultFlow().when, p)
  {
  }

  lemma DropAllMatches(vnid: nat, p: Packet)
    requires p.reg0 == vnid
    ensures Matches(DropAll(vnid).when, p)
  {
  }

  lemma TestsReg0(f: Flow<Verdict>, p: Packet)
    requires Matches(f.when, p) && f.when.reg0.Some?
    ensures f.when.reg0 == Some(p.reg0)
  {
  }

  lemma RulesDecide(t: set<Flow<Verdict>>, rules: seq<Rule>, vnid: nat, p: Packet)
    requires IPv4(p) && p.reg0 == vnid && DefaultFlow() in t && RuleFlows(vnid, rules, |rules|) <= t
    requires forall f | f in t && Matches(f.when, p) :: f == DefaultFlow() || f in RuleFlows(vnid, rules, |rules|)
    ensures Decides(t, p, FirstMatch(rules, p.dst))
  {
    hide Matches, Decides, RuleHits, FirstMatch, IPv4, RuleFlow;
    DefaultMatches(p);
    forall i | 0 <= i < |rules|
      ensures Matches(RuleFlow(vnid, |rules| - i, rules[i]).when, p) <==> RuleHits(rules[i], p.dst)
      ensures RuleFlow(vnid, |rules| - i, rules[i]).priority == |rules| - i
      ensures RuleFlow(vnid, |rules| - i, rules[i]).action == rules[i].verdict
    {
      RuleFlowMatches(vnid, |rules| - i, rules[i], p);
      RuleFlowIs(vnid, |rules| - i, rules[i]);
    }
    var i := FindFirst(rules, p.dst);
    if i < |rules| {
      FirstMatchIsFirst(rules, p.dst, i);
      var f := RuleFlow(vnid, |rules| - i, rules[i]);
      assert f in RuleFlows(vnid, rules, |rules|);
      FlowDecides(t, p, f);
    } else {
      NoMatchAllows(rules, p.dst);
      FlowDecides(t, p, DefaultFlow());
    }
  }

  lemma RuleFlowIs(vnid: nat, priority: nat, r: Rule)
    ensures RuleFlow(vnid, priority, r).priority == priority && RuleFlow(vnid, priority, r).action == r.verdict
  {
  }

  lemma FindFirst(rules: seq<Rule>, x: nat) returns (i: nat)
    ensures i <= |rules| && (forall j | 0 <= j < i :: !RuleHits(rules[j], x)) && (i < |rules| ==> RuleHits(rules[i], x))
  {
    i := 0;
    while i < |rules| && !RuleHits(rules[i], x)
      invariant i <= |rules| && forall j | 0 <= j < i :: !RuleHits(rules[j], x)
    {
      i := i + 1;
    }
  }
}
