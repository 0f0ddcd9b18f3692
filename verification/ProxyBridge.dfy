/** The firewall of the proxy compared with table 101 of the bridge, over runs
    of the policy and VNID events that both of them see. */
module ProxyBridge {
  import opened Wrappers
  import opened Cidr
  import opened EgressPolicy
  import opened Proxy
  import opened OpenFlow
  import opened PolicyNode
  import opened PolicyRuns
  import Vnids

  // ---- policies as maps ------------------------------------------------------------

  /** The firewalls that stand for the policies of a namespace. */
  ghost function Nonempty(policies: map<string, seq<Rule>>): map<string, seq<Rule>> {
    map uid | uid in policies && policies[uid] != [] :: CorrectAll(policies[uid])
  }

  /** The stored rules refuse what the rules of the policy deny. */
  lemma {:induction false} CorrectionKeepsVerdict(rules: seq<Rule>, x: nat)
    ensures Refuses(CorrectAll(rules), x) <==> FirstMatch(rules, x) == Deny
    decreases |rules|
  {
    hide Contains;
    var stored := CorrectAll(rules);
    if rules != [] {
      CorrectionKeepsVerdict(rules[1..], x);
      RefusesCons(stored, x);
      assert stored[1..] == CorrectAll(rules[1..]);
    }
  }

  lemma RefusesCons(rules: seq<Rule>, x: nat)
    requires rules != []
    ensures Refuses(rules, x) <==>
              if Contains(rules[0].to, x) then rules[0].verdict == Deny else Refuses(rules[1..], x)
  {
    hide Contains;
    var rest := rules[1..];
    if Contains(rules[0].to, x) {
      if rules[0].verdict == Deny { assert rules[0].verdict == Deny; }
    } else {
      if i :| 0 <= i < |rest| && rest[i].verdict == Deny && Contains(rest[i].to, x)
              && forall j | 0 <= j < i :: !Contains(rest[j].to, x) {
        assert rules[i + 1] == rest[i] && forall j | 0 < j < i + 1 :: rules[j] == rest[j - 1];
      }
      if i :| 0 <= i < |rules| && rules[i].verdict == Deny && Contains(rules[i].to, x)
              && forall j | 0 <= j < i :: !Contains(rules[j].to, x) {
        assert i > 0 && rest[i - 1] == rules[i] && forall j | 0 <= j < i - 1 :: rest[j] == rules[j + 1];
      }
    }
  }

  /** `list` lists the policies of the map. */
  ghost predicate Lists(policies: map<string, seq<Rule>>, list: seq<seq<Rule>>) {
    |list| == |policies| && forall uid | policies.Keys == {uid} :: list == [policies[uid]]
  }

  /** Proxy and bridge treat a destination alike exactly when the namespace has at
      most one policy, or at least two with rules, or the only one with rules denies it. */
  lemma ProxyAgreesWithBridge(policies: map<string, seq<Rule>>, list: seq<seq<Rule>>, x: nat)
    requires Lists(policies, list)
    ensures (Blocks(Nonempty(policies), x) <==> Meaning(list, 1, x) == Deny)
            <==> |policies| <= 1 || |Nonempty(policies)| > 1
                 || exists uid :: Nonempty(policies).Keys == {uid} && FirstMatch(policies[uid], x) == Deny
  {
    hide FirstMatch, CorrectAll, Refuses;
    var some := Nonempty(policies);
    forall uid | uid in policies
      ensures Refuses(CorrectAll(policies[uid]), x) <==> FirstMatch(policies[uid], x) == Deny
    {
      CorrectionKeepsVerdict(policies[uid], x);
    }
    if |policies| == 0 {
      assert policies == map[] && some == map[];
    } else if |policies| == 1 {
      var uid :| uid in policies;
      OneKey(policies, uid);
      if policies[uid] == [] {
        assert some == map[];
        NoMatchAllows([], x);
      } else {
        assert some.Keys == {uid};
      }
    } else if |some| > 1 {
      assert forall uid | some.Keys == {uid} :: |some.Keys| == 1;
      assert |some| == |some.Keys|;
    } else if |some| == 1 {
      var uid :| uid in some;
      OneKey(some, uid);
    } else {
      assert some == map[];
    }
  }

  /** Two policies of which one is empty: the bridge drops what the proxy lets through.
      The node has an empty policy only from its listing at start-up; events leave none
      (`PolicyRuns.EntriesAreGiven`). */
  lemma ProxyCanDisagree()
    ensures var policies: map<string, seq<Rule>> := map["p" := [], "q" := [Rule(Allow, Cidr(0, 0))]];
            Lists(policies, [[], [Rule(Allow, Cidr(0, 0))]])
            && !Blocks(Nonempty(policies), 1) && Meaning([[], [Rule(Allow, Cidr(0, 0))]], 1, 1) == Deny
  {
    var rule := Rule(Allow, Cidr(0, 0));
    var policies: map<string, seq<Rule>> := map["p" := [], "q" := [rule]];
    assert "p" in policies.Keys && "q" in policies.Keys;
    assert policies.Keys == {"p", "q"} && |policies.Keys| == 2;
    assert Nonempty(policies).Keys == {"q"};
    CorrectionKeepsVerdict([rule], 1);
    assert FirstMatch([rule], 1) == Allow;
  }

  // ---- what the proxy has taken over ----------------------------------------------

  /** The policies of a namespace as the last events gave them, taken over or not. */
  function LastPolicies(ops: seq<Op>, ns: string): map<string, seq<Rule>> {
    if ops == [] then map[]
    else
      var op := ops[|ops| - 1];
      var before := LastPolicies(ops[..|ops| - 1], ns);
      if op.SetPolicy? && op.ns == ns then before[op.policy := op.rules] else before
  }

  /** The namespace has a known VNID other than the global one. */
  predicate Firewalled(ops: seq<Op>, ns: string) {
    ns in NetIDsAfter(ops) && NetIDsAfter(ops)[ns] != 0
  }

  /** Every policy event of the namespace came while the namespace was firewalled. */
  ghost predicate AllTaken(ops: seq<Op>, ns: string) {
    forall i {:trigger ops[i]} | 0 <= i < |ops| && ops[i].SetPolicy? && ops[i].ns == ns :: Firewalled(ops[..i], ns)
  }

  /** The rules of the last event of the policy that came while the namespace was firewalled. */
  function LastTaken(ops: seq<Op>, ns: string, policy: string): seq<Rule> {
    if ops == [] then []
    else
      var op, init := ops[|ops| - 1], ops[..|ops| - 1];
      if op.SetPolicy? && op.ns == ns && op.policy == policy && Firewalled(init, ns) then op.rules
      else LastTaken(init, ns, policy)
  }

  function RulesOf(policies: map<string, seq<Rule>>, policy: string): seq<Rule> {
    if policy in policies then policies[policy] else []
  }

  /** The proxy has the rules of the last event of the policy that it took over. */
  lemma {:induction false} TakenIsInForce(ops: seq<Op>, ns: string, policy: string)
    ensures RulesOf(PoliciesAfter(ops, ns), policy) == CorrectAll(LastTaken(ops, ns, policy))
    decreases |ops|
  {
    hide CorrectAll;
    CorrectNone();
    if ops != [] { TakenIsInForce(ops[..|ops| - 1], ns, policy); }
  }

  lemma CorrectNone()
    ensures CorrectAll([]) == []
  {
  }

  lemma CorrectEmptiness(rules: seq<Rule>)
    ensures CorrectAll(rules) == [] <==> rules == []
  {
    CorrectSize(rules);
  }

  /** What the proxy has are nonempty policies that some event gave. */
  lemma {:induction false} InForceWasGiven(ops: seq<Op>, ns: string, policy: string)
    requires policy in PoliciesAfter(ops, ns)
    ensures PoliciesAfter(ops, ns)[policy] != [] && policy in LastPolicies(ops, ns)
    decreases |ops|
  {
    hide CorrectAll;
    var op, init := ops[|ops| - 1], ops[..|ops| - 1];
    if op.SetPolicy? && op.ns == ns && op.policy == policy {
      CorrectEmptiness(op.rules);
    }
    if policy in PoliciesAfter(init, ns) {
      InForceWasGiven(init, ns, policy);
    }
  }

  /** The proxy has exactly the last nonempty policies iff every policy's last event
      gave the rules of the last event that was taken over. */
  lemma FirewallIsUpToDateIff(ops: seq<Op>, ns: string)
    ensures PoliciesAfter(ops, ns) == Nonempty(LastPolicies(ops, ns)) <==>
              forall policy | policy in LastPolicies(ops, ns) ::
                CorrectAll(LastPolicies(ops, ns)[policy]) == CorrectAll(LastTaken(ops, ns, policy))
  {
    hide CorrectAll, PoliciesAfter, LastPolicies, LastTaken;
    var have, last := PoliciesAfter(ops, ns), LastPolicies(ops, ns);
    forall p | p in last ensures CorrectAll(last[p]) == [] <==> last[p] == [] { CorrectEmptiness(last[p]); }
    forall p | p in have ensures have[p] != [] && p in last { InForceWasGiven(ops, ns, p); }
    forall p ensures RulesOf(have, p) == CorrectAll(LastTaken(ops, ns, p)) { TakenIsInForce(ops, ns, p); }
    if forall p | p in last :: RulesOf(have, p) == CorrectAll(last[p]) {
      assert have.Keys == Nonempty(last).Keys;
      assert have == Nonempty(last);
    }
  }

  /** When every policy event was taken over, the proxy has exactly the last nonempty policies. */
  lemma AllTakenIsUpToDate(ops: seq<Op>, ns: string)
    requires AllTaken(ops, ns)
    ensures PoliciesAfter(ops, ns) == Nonempty(LastPolicies(ops, ns))
  {
    hide CorrectAll, PoliciesAfter;
    forall p | p in LastPolicies(ops, ns) ensures LastTaken(ops, ns, p) == LastPolicies(ops, ns)[p] {
      AllTakenIsLastTaken(ops, ns, p);
    }
    FirewallIsUpToDateIff(ops, ns);
  }

  lemma {:induction false} AllTakenIsLastTaken(ops: seq<Op>, ns: string, policy: string)
    requires AllTaken(ops, ns) && policy in LastPolicies(ops, ns)
    ensures LastTaken(ops, ns, policy) == LastPolicies(ops, ns)[policy]
    decreases |ops|
  {
    var op, init := ops[|ops| - 1], ops[..|ops| - 1];
    if !(op.SetPolicy? && op.ns == ns && op.policy == policy) {
      TakenBefore(ops, ns);
      AllTakenIsLastTaken(init, ns, policy);
    }
  }

  lemma TakenBefore(ops: seq<Op>, ns: string)
    requires AllTaken(ops, ns) && ops != []
    ensures AllTaken(ops[..|ops| - 1], ns)
  {
    var init := ops[..|ops| - 1];
    forall i | 0 <= i < |init| && init[i].SetPolicy? && init[i].ns == ns ensures Firewalled(init[..i], ns) {
      assert ops[i] == init[i] && ops[..i] == init[..i];
    }
  }

  // ---- what the node has made of the same events -------------------------------------

  lemma {:induction false} TakenIsServed(ops: seq<Op>, ns: string)
    requires AllTaken(ops, ns)
    ensures Served(ops, ns) == LastPolicies(ops, ns)
    decreases |ops|
  {
    hide NetIDsAfter;
    if ops != [] {
      TakenBefore(ops, ns);
      TakenIsServed(ops[..|ops| - 1], ns);
    }
  }

  /** The proxy blocks exactly the destinations that table 101 drops for the VNID. */
  ghost predicate Agree(ops: seq<Op>, ns: string, vnid: nat, x: nat) {
    Blocks(PoliciesAfter(ops, ns), x) <==> VerdictOf(LoadsAfter(ops), vnid, x) == Deny
  }

  /** The policies of the namespace, had both sides all of them, block the destination. */
  ghost predicate Wanted(ops: seq<Op>, ns: string, x: nat) {
    Blocks(Nonempty(LastPolicies(ops, ns)), x)
  }

  /** Every policy event of the namespace came while it was firewalled, and no change of
      its VNID while two of its policies had rules. */
  ghost predicate Orderly(ops: seq<Op>, ns: string) {
    UniqueUIDs(ops) && AllTaken(ops, ns) && SmallMoves(ops, ns)
  }

  lemma KeepsLists(list: seq<Entry>, policies: map<string, seq<Rule>>)
    requires Keeps(list, policies)
    ensures Lists(WithRules(policies), AllRules(list))
  {
    var some := WithRules(policies);
    KeptNames(list, policies);
    forall uid | some.Keys == {uid} ensures AllRules(list) == [some[uid]] {
      assert |list| == 1 && list[0] in list;
    }
  }

  /** A list that keeps the policies means what they do. */
  lemma KeptMeaning(list: seq<Entry>, policies: map<string, seq<Rule>>, x: nat)
    requires Keeps(list, policies)
    ensures Blocks(Nonempty(policies), x) <==> Meaning(AllRules(list), 1, x) == Deny
  {
    hide Keeps, Blocks, Meaning, CorrectAll;
    KeepsLists(list, policies);
    var some := WithRules(policies);
    assert Nonempty(some) == Nonempty(policies);
    assert Nonempty(some).Keys == some.Keys;
    assert |Nonempty(some)| == |some| by { assert |some.Keys| == |some| && |Nonempty(some).Keys| == |Nonempty(some)|; }
    ProxyAgreesWithBridge(some, AllRules(list), x);
  }

  /** In an orderly run what the node has of the namespace means what the proxy has. */
  lemma OwnMeaning(ops: seq<Op>, ns: string, x: nat)
    requires Orderly(ops, ns)
    ensures PoliciesAfter(ops, ns) == Nonempty(LastPolicies(ops, ns))
    ensures var own := OwnUnder(BookAfter(ops), At(NetIDsAfter(ops), ns), ns);
            Blocks(PoliciesAfter(ops, ns), x) <==> Meaning(AllRules(own), 1, x) == Deny
  {
    hide AllTaken, SmallMoves, UniqueUIDs, Keeps, PoliciesAfter, BookAfter, NetIDsAfter, LastPolicies, Served, Blocks,
         Meaning, Nonempty;
    AllTakenIsUpToDate(ops, ns);
    TakenIsServed(ops, ns);
    SmallMovesHouse(ops, ns);
    KeptMeaning(OwnUnder(BookAfter(ops), At(NetIDsAfter(ops), ns), ns), LastPolicies(ops, ns), x);
  }

  ghost predicate OnlyOf(list: seq<Entry>, ns: string) {
    forall e | e in list :: e.ns == ns
  }

  lemma {:induction false} OwnOfAll(list: seq<Entry>, ns: string)
    ensures OnlyOf(list, ns) ==> Own(list, ns) == list
    decreases |list|
  {
    if list != [] {
      OwnOfAll(list[1..], ns);
      assert OnlyOf(list, ns) ==> list[0] in list && OnlyOf(list[1..], ns);
    }
  }

  /** After an orderly run, proxy and bridge treat a destination alike iff no policy
      stands under the VNID, or only those of the namespace and nobody shared the VNID
      when its flows were made; or else, when the bridge drops everything, iff the
      namespace's own policies block the destination, and when it follows the one policy of
      another namespace, iff that allows it. */
  lemma RunsAgreeIff(ops: seq<Op>, ns: string, x: nat)
    requires Orderly(ops, ns) && At(NetIDsAfter(ops), ns) != 0
    ensures var vnid := At(NetIDsAfter(ops), ns);
            var list, sharers := Under(BookAfter(ops), vnid), SharersSeen(ops, vnid);
            Agree(ops, ns, vnid, x)
            <==> list == [] || (sharers <= 1 && OnlyOf(list, ns))
                 || (if sharers > 1 || |list| > 1 then Wanted(ops, ns, x) else FirstMatch(list[0].rules, x) == Allow)
  {
    hide Orderly, PoliciesAfter, BookAfter, LoadsAfter, NetIDsAfter, LastPolicies, Blocks, Nonempty, SharersSeen;
    var vnid := At(NetIDsAfter(ops), ns);
    var list := Under(BookAfter(ops), vnid);
    OwnMeaning(ops, ns, x);
    VerdictIs(ops, vnid, x);
    OwnOfAll(list, ns);
    OwnIs(list, ns);
    if !OnlyOf(list, ns) && |list| == 1 {
      assert list[0] in list;
      assert Own(list, ns) == [];
    }
  }

  /** Nobody but the namespace is ever given the VNID. */
  ghost predicate Exclusive(ops: seq<Op>, ns: string, vnid: nat) {
    forall op | op in ops && op.SetNetID? && op.netID == vnid :: op.ns == ns
  }

  lemma ExclusiveBefore(ops: seq<Op>, ns: string, vnid: nat)
    requires Exclusive(ops, ns, vnid) && ops != []
    ensures Exclusive(ops[..|ops| - 1], ns, vnid)
    ensures var op := ops[|ops| - 1]; op.SetNetID? && op.netID == vnid ==> op.ns == ns
  {
    assert forall op | op in ops[..|ops| - 1] :: op in ops;
    assert ops[|ops| - 1] in ops;
  }

  lemma {:induction false} SoleHolder(ops: seq<Op>, ns: string, vnid: nat)
    requires Exclusive(ops, ns, vnid)
    ensures Vnids.Holders(NetIDsAfter(ops), vnid) <= {ns} && |Vnids.Holders(NetIDsAfter(ops), vnid)| <= 1
    decreases |ops|
  {
    hide Exclusive;
    if ops != [] {
      ExclusiveBefore(ops, ns, vnid);
      SoleHolder(ops[..|ops| - 1], ns, vnid);
    }
    SmallSet(Vnids.Holders(NetIDsAfter(ops), vnid), ns);
  }

  lemma SmallSet(s: set<string>, x: string)
    ensures s <= {x} ==> |s| <= 1
  {
    if s <= {x} { assert s == {} || s == {x}; }
  }

  /** An exclusive VNID other than 0 has only entries of its namespace, and is never seen shared. */
  lemma {:induction false} ExclusiveEntries(ops: seq<Op>, ns: string, vnid: nat)
    requires Exclusive(ops, ns, vnid) && vnid != 0
    ensures OnlyOf(Under(BookAfter(ops), vnid), ns) && SharersSeen(ops, vnid) <= 1
    decreases |ops|
  {
    hide Exclusive, NetIDsAfter, BookStep, LoadsStep, NetIDsStep, Vnids.Holders, OnlyOf;
    if ops == [] {
      NoEntries(ns, vnid);
    } else {
      var op, init := ops[|ops| - 1], ops[..|ops| - 1];
      ExclusiveBefore(ops, ns, vnid);
      ExclusiveEntries(init, ns, vnid);
      SoleHolder(init, ns, vnid);
      SoleHolder(ops, ns, vnid);
      NetIDsSnoc(ops);
      StepExclusive(NetIDsAfter(init), BookAfter(init), LoadsAfter(init), op, ns, vnid);
    }
  }

  lemma NoEntries(ns: string, vnid: nat)
    ensures OnlyOf(Under(map[], vnid), ns)
  {
  }

  lemma NetIDsSnoc(ops: seq<Op>)
    requires ops != []
    ensures NetIDsAfter(ops) == NetIDsStep(NetIDsAfter(ops[..|ops| - 1]), ops[|ops| - 1])
  {
  }

  lemma StepExclusive(ids: map<string, nat>, b: Book, loads: Loads, op: Op, ns: string, vnid: nat)
    requires vnid != 0 && (op.SetNetID? && op.netID == vnid ==> op.ns == ns)
    requires Vnids.Holders(ids, vnid) <= {ns} && |Vnids.Holders(NetIDsStep(ids, op), vnid)| <= 1
    requires OnlyOf(Under(b, vnid), ns) && (vnid in loads ==> loads[vnid].sharers <= 1)
    ensures OnlyOf(Under(BookStep(ids, b, op), vnid), ns)
    ensures var loads' := LoadsStep(ids, b, loads, op); vnid in loads' ==> loads'[vnid].sharers <= 1
  {
    hide FirstOf, AllRules, Without, Move, OnlyOf;
    match op
    case SetPolicy(m, policy, rules) =>
      if m in ids && ids[m] == vnid {
        assert m in Vnids.Holders(ids, vnid);
        PolicyStaysExclusive(Under(b, vnid), ns, policy, rules);
      }
    case SetNetID(m, netID) => MoveStaysExclusive(b, m, At(ids, m), netID, ns, vnid);
    case ForgetNetID(m) => MoveStaysExclusive(b, m, At(ids, m), 0, ns, vnid);
    case _ =>
  }

  lemma PolicyStaysExclusive(list: seq<Entry>, ns: string, policy: string, rules: seq<Rule>)
    requires OnlyOf(list, ns)
    ensures OnlyOf(Without(list, policy) + if rules != [] then [Entry(ns, policy, rules)] else [], ns)
  {
    WithoutIsSubset(list, policy);
  }

  lemma MoveStaysExclusive(b: Book, m: string, from: nat, to: nat, ns: string, vnid: nat)
    requires OnlyOf(Under(b, vnid), ns) && (to == vnid ==> m == ns)
    ensures OnlyOf(Under(Move(b, m, from, to), vnid), ns)
  {
    hide FirstOf;
  }

  /** A namespace that has its VNID to itself: after an orderly run proxy and bridge
      treat every destination alike. */
  lemma AloneAgrees(ops: seq<Op>, ns: string, x: nat)
    requires Orderly(ops, ns) && At(NetIDsAfter(ops), ns) != 0 && Exclusive(ops, ns, At(NetIDsAfter(ops), ns))
    ensures Agree(ops, ns, At(NetIDsAfter(ops), ns), x)
  {
    hide Orderly, NetIDsAfter, BookAfter, Agree, Exclusive, SharersSeen, OnlyOf, Wanted;
    ExclusiveEntries(ops, ns, At(NetIDsAfter(ops), ns));
    RunsAgreeIff(ops, ns, x);
  }

  /** After the first change of VNID that comes while several policies have rules, the
      proxy blocks everything, the node has one of them under the new VNID and the
      others under the old one, and the two agree on what that one denies. */
  lemma SplitAgreesIff(ops: seq<Op>, ns: string, x: nat)
    requires ops != [] && Orderly(ops[..|ops| - 1], ns) && UniqueUIDs(ops)
    requires var op, init := ops[|ops| - 1], ops[..|ops| - 1];
             Relocates(NetIDsAfter(init), op, ns) && |WithRules(LastPolicies(init, ns))| >= 2
    requires At(NetIDsAfter(ops), ns) != 0 && Exclusive(ops, ns, At(NetIDsAfter(ops), ns))
    ensures var from, to := At(NetIDsAfter(ops[..|ops| - 1]), ns), At(NetIDsAfter(ops), ns);
            var list, last := Under(BookAfter(ops), to), LastPolicies(ops, ns);
            && |list| == 1 && list[0].policy in last && list[0].rules == last[list[0].policy]
            && OwnUnder(BookAfter(ops), from, ns) != [] && Blocks(PoliciesAfter(ops, ns), x)
            && (Agree(ops, ns, to, x) <==> FirstMatch(list[0].rules, x) == Deny)
  {
    hide AllTaken, SmallMoves, UniqueUIDs, PoliciesAfter, BookAfter, NetIDsAfter, LoadsAfter, Blocks, LastPolicies,
         Nonempty, WithRules, Served, OwnUnder, SharersSeen, FirstMatch, Exclusive, Keeps;
    var op, init := ops[|ops| - 1], ops[..|ops| - 1];
    var from, to := At(NetIDsAfter(init), ns), At(NetIDsAfter(ops), ns);
    NetIDsSnoc(ops);
    TakenIsServed(init, ns);
    RelocationKeepsPolicies(ops, ns);
    BadMoveSplits(ops, ns);
    OwnMeaning(init, ns, x);
    var own := OwnUnder(BookAfter(init), from, ns);
    assert Meaning(AllRules(own), 1, x) == Deny;
    ExclusiveEntries(ops, ns, to);
    WholeList(BookAfter(ops), to, ns);
    VerdictIs(ops, to, x);
    KeptEntry(own, LastPolicies(ops, ns), own[0]);
  }

  lemma KeptEntry(list: seq<Entry>, policies: map<string, seq<Rule>>, e: Entry)
    requires Keeps(list, policies) && e in list
    ensures e.policy in policies && policies[e.policy] == e.rules
  {
  }

  lemma WholeList(b: Book, vnid: nat, ns: string)
    requires OnlyOf(Under(b, vnid), ns)
    ensures OwnUnder(b, vnid, ns) == Under(b, vnid)
  {
    OwnOfAll(Under(b, vnid), ns);
  }

  lemma RelocationKeepsPolicies(ops: seq<Op>, ns: string)
    requires ops != [] && Relocates(NetIDsAfter(ops[..|ops| - 1]), ops[|ops| - 1], ns)
    ensures var init := ops[..|ops| - 1];
            && PoliciesAfter(ops, ns) == PoliciesAfter(init, ns) && LastPolicies(ops, ns) == LastPolicies(init, ns)
            && Served(ops, ns) == Served(init, ns)
  {
    hide Revised;
  }

  /** The bridge drops nothing of a namespace that has become global or unknown, so the
      two agree on what its policies let through. */
  lemma GlobalAgreesIff(ops: seq<Op>, ns: string, x: nat)
    requires AllTaken(ops, ns) && At(NetIDsAfter(ops), ns) == 0
    ensures Agree(ops, ns, 0, x) <==> !Wanted(ops, ns, x)
  {
    hide AllTaken, PoliciesAfter, LoadsAfter, NetIDsAfter, LastPolicies, Blocks, Nonempty, VerdictOf;
    AllTakenIsUpToDate(ops, ns);
    GlobalIsOpen(ops, x);
  }

  /** The table itself: for every namespace whose run was orderly and which has its VNID to
      itself, table 101 drops exactly the destinations that the proxy blocks. */
  method Guard(ops: seq<Op>) returns (n: OsdnNode)
    ensures n.egressPolicies == BookAfter(ops)
    ensures forall ns, p: Packet {:trigger At(NetIDsAfter(ops), ns), IPv4(p)} |
              IPv4(p) && Orderly(ops, ns) && p.reg0 == At(NetIDsAfter(ops), ns) != 0 && Exclusive(ops, ns, p.reg0) ::
              Decides(n.table101, p, Deny) <==> Blocks(PoliciesAfter(ops, ns), p.dst)
  {
    hide Orderly, Exclusive, NetIDsAfter, BookAfter, LoadsAfter, PoliciesAfter, Blocks, Decides, Reflects, IPv4;
    n := Enforce(ops);
    forall ns, p: Packet |
      IPv4(p) && Orderly(ops, ns) && p.reg0 == At(NetIDsAfter(ops), ns) != 0 && Exclusive(ops, ns, p.reg0)
      ensures Decides(n.table101, p, Deny) <==> Blocks(PoliciesAfter(ops, ns), p.dst)
    {
      AloneAgrees(ops, ns, p.dst);
      DropsIff(n.table101, LoadsAfter(ops), p);
    }
  }

  lemma DropsIff(t: set<Flow<Verdict>>, loads: Loads, p: Packet)
    requires Reflects(t, loads) && IPv4(p)
    ensures Decides(t, p, Deny) <==> VerdictOf(loads, p.reg0, p.dst) == Deny
  {
    hide Decides, VerdictOf, IPv4;
    if Decides(t, p, Deny) { DecisionIsUnique(t, p, Deny, VerdictOf(loads, p.reg0, p.dst)); }
  }

  // ---- runs on which the two sides differ ---------------------------------------------

  lemma PoliciesSnoc(ops: seq<Op>, op: Op, ns: string)
    ensures PoliciesAfter(ops + [op], ns) == PoliciesStep(NetIDsAfter(ops), PoliciesAfter(ops, ns), ns, op)
    ensures NetIDsAfter(ops + [op]) == NetIDsStep(NetIDsAfter(ops), op)
    ensures BookAfter(ops + [op]) == BookStep(NetIDsAfter(ops), BookAfter(ops), op)
  {
    assert (ops + [op])[..|ops|] == ops;
  }

  lemma NoPolicies(ns: string)
    ensures NetIDsAfter([]) == map[] && BookAfter([]) == map[] && PoliciesAfter([], ns) == map[]
  {
  }

  lemma AnyIsCorrect(verdict: Verdict)
    ensures CorrectAll(Any(verdict)) == Any(verdict) && Any(verdict) != []
  {
  }

  /** A namespace with a VNID, and then a policy. */
  lemma OnePolicy(id: nat, verdict: Verdict)
    ensures var ops := [SetNetID("n", id), SetPolicy("n", "p", Any(verdict))];
            && NetIDsAfter(ops) == map["n" := id] && BookAfter(ops) == map[id := [Entry("n", "p", Any(verdict))]]
            && PoliciesAfter(ops, "n") == if id == 0 then map[] else map["p" := Any(verdict)]
  {
    hide NetIDsAfter, PoliciesAfter, BookAfter, Any, Move, Without;
    var a, b := SetNetID("n", id), SetPolicy("n", "p", Any(verdict));
    NoPolicies("n");
    PoliciesSnoc([], a, "n");
    PoliciesSnoc([a], b, "n");
    assert [] + [a] == [a] && [a] + [b] == [a, b];
    AnyIsCorrect(verdict);
    NothingMoves(map[], "n", 0, id);
    FirstPolicy(map["n" := id], "n", "p", Any(verdict));
  }

  lemma OneBlocks(policy: string, rules: seq<Rule>, x: nat)
    ensures Blocks(map[policy := rules], x) <==> Refuses(rules, x)
  {
    assert map[policy := rules].Keys == {policy};
  }

  /** A policy that comes while the namespace is global is ignored by the proxy for
      good, and moved to the new VNID by the node. */
  lemma LateVNIDDisagrees(x: nat)
    requires x < Pow2(32)
    ensures var ops := [SetNetID("n", 0), SetPolicy("n", "p", Any(Deny)), SetNetID("n", 5)];
            !Blocks(PoliciesAfter(ops, "n"), x) && VerdictOf(LoadsAfter(ops), 5, x) == Deny
  {
    hide Pow2, NetIDsAfter, PoliciesAfter, BookAfter, LoadsAfter, FirstMatch, Any, AllRules, Move;
    var init, op := [SetNetID("n", 0), SetPolicy("n", "p", Any(Deny))], SetNetID("n", 5);
    var ops, e := init + [op], Entry("n", "p", Any(Deny));
    OnePolicy(0, Deny);
    PoliciesSnoc(init, op, "n");
    TakesOne(e, 0, 5);
    OnlyRules(e);
    ExclusiveEntries(ops, "n", 5);
    VerdictIs(ops, 5, x);
    AnyDecides(Deny, x);
    assert ops == [SetNetID("n", 0), SetPolicy("n", "p", Any(Deny)), SetNetID("n", 5)];
  }

  lemma TakesOne(e: Entry, from: nat, to: nat)
    requires from != to
    ensures Under(Move(map[from := [e]], e.ns, from, to), to) == [e]
  {
    assert FirstOf([e], e.ns) == 0;
    assert [] + [e] == [e];
  }

  lemma TwoPolicies()
    ensures var r := Any(Allow);
            var ops := [SetNetID("n", 5), SetPolicy("n", "p", r), SetPolicy("n", "q", r)];
            && NetIDsAfter(ops) == map["n" := 5] && PoliciesAfter(ops, "n") == map["p" := r, "q" := r]
            && BookAfter(ops) == map[5 := [Entry("n", "p", r), Entry("n", "q", r)]]
  {
    hide NetIDsAfter, PoliciesAfter, BookAfter, Any;
    var r := Any(Allow);
    var init, op := [SetNetID("n", 5), SetPolicy("n", "p", r)], SetPolicy("n", "q", r);
    OnePolicy(5, Allow);
    PoliciesSnoc(init, op, "n");
    AnyIsCorrect(Allow);
    var e, g := Entry("n", "p", r), Entry("n", "q", r);
    assert Without([e], "q") + [g] == [e, g];
    assert init + [op] == [SetNetID("n", 5), SetPolicy("n", "p", r), SetPolicy("n", "q", r)];
  }

  /** Two policies, then another VNID: the proxy blocks everything, and the node follows
      the one policy it has taken along and leaves the other under the old VNID. */
  lemma TwoPoliciesDisagree(x: nat)
    requires x < Pow2(32)
    ensures var ops := [SetNetID("n", 5), SetPolicy("n", "p", Any(Allow)), SetPolicy("n", "q", Any(Allow)),
                        SetNetID("n", 6)];
            && Blocks(PoliciesAfter(ops, "n"), x) && VerdictOf(LoadsAfter(ops), 6, x) == Allow
            && Under(BookAfter(ops), 5) == [Entry("n", "q", Any(Allow))]
  {
    hide Pow2, NetIDsAfter, PoliciesAfter, BookAfter, LoadsAfter, FirstMatch, Any, AllRules, Blocks, Move;
    var r := Any(Allow);
    var init, op := [SetNetID("n", 5), SetPolicy("n", "p", r), SetPolicy("n", "q", r)], SetNetID("n", 6);
    var ops, e, g := init + [op], Entry("n", "p", r), Entry("n", "q", r);
    TwoPolicies();
    PoliciesSnoc(init, op, "n");
    TakesFirst(e, g, 5, 6);
    TwoBlock(PoliciesAfter(ops, "n"), "p", "q", x);
    OnlyRules(e);
    ExclusiveEntries(ops, "n", 6);
    VerdictIs(ops, 6, x);
    AnyDecides(Allow, x);
    assert ops == [SetNetID("n", 5), SetPolicy("n", "p", r), SetPolicy("n", "q", r), SetNetID("n", 6)];
  }

  lemma TakesFirst(e: Entry, g: Entry, from: nat, to: nat)
    requires from != to
    ensures var b := Move(map[from := [e, g]], e.ns, from, to); Under(b, from) == [g] && Under(b, to) == [e]
  {
    assert FirstOf([e, g], e.ns) == 0;
    assert [e, g][..0] + [e, g][1..] == [g];
  }

  lemma TwoBlock(firewalls: map<string, seq<Rule>>, p: string, q: string, x: nat)
    requires p in firewalls && q in firewalls && p != q
    ensures Blocks(firewalls, x)
  {
    assert forall uid | firewalls.Keys == {uid} :: p == uid && q == uid;
  }

  /** A namespace that becomes global: the bridge opens up, the proxy keeps its firewall. */
  lemma GlobalDisagrees(x: nat)
    requires x < Pow2(32)
    ensures var ops := [SetNetID("n", 5), SetPolicy("n", "p", Any(Deny)), SetNetID("n", 0)];
            Blocks(PoliciesAfter(ops, "n"), x) && VerdictOf(LoadsAfter(ops), 0, x) == Allow
  {
    hide Pow2, NetIDsAfter, PoliciesAfter, BookAfter, LoadsAfter, FirstMatch, Any, BookStep, VerdictOf, Blocks,
         Refuses, CorrectAll;
    var init, op := [SetNetID("n", 5), SetPolicy("n", "p", Any(Deny))], SetNetID("n", 0);
    OnePolicy(5, Deny);
    PoliciesSnoc(init, op, "n");
    OneBlocks("p", Any(Deny), x);
    CorrectionKeepsVerdict(Any(Deny), x);
    AnyIsCorrect(Deny);
    AnyDecides(Deny, x);
    GlobalIsOpen(init + [op], x);
    assert init + [op] == [SetNetID("n", 5), SetPolicy("n", "p", Any(Deny)), SetNetID("n", 0)];
  }

  /** Two namespaces share a VNID and one has a policy: the bridge drops everything, the
      proxy does as the policy says. */
  lemma SharedDisagrees(x: nat)
    requires x < Pow2(32)
    ensures var ops := [SetNetID("a", 5), SetNetID("b", 5), SetPolicy("a", "p", Any(Allow))];
            !Blocks(PoliciesAfter(ops, "a"), x) && VerdictOf(LoadsAfter(ops), 5, x) == Deny
  {
    hide Pow2, NetIDsAfter, PoliciesAfter, BookAfter, LoadsAfter, FirstMatch, Any, AllRules, BookStep, Without, Refuses,
         CorrectAll;
    var r := Any(Allow);
    var a, b, c := SetNetID("a", 5), SetNetID("b", 5), SetPolicy("a", "p", r);
    NoPolicies("a");
    PoliciesSnoc([], a, "a");
    PoliciesSnoc([a], b, "a");
    PoliciesSnoc([a, b], c, "a");
    assert [] + [a] == [a] && [a] + [b] == [a, b] && [a, b] + [c] == [a, b, c];
    AnyIsCorrect(Allow);
    AnyDecides(Allow, x);
    NothingMoves(map[], "a", 0, 5);
    NothingMoves(map[], "b", 0, 5);
    var ids := map["a" := 5, "b" := 5];
    assert NetIDsAfter([a, b]) == ids;
    FirstPolicy(ids, "a", "p", r);
    assert Vnids.Holders(ids, 5) == {"a", "b"};
    Snoc([a, b], c);
    assert PoliciesAfter([a, b, c], "a") == map["p" := r];
    OneBlocks("p", r, x);
    CorrectionKeepsVerdict(r, x);
  }
}
