/** What a node's policy lists and table 101 are after whole runs of events: which
    policies of a namespace are listed under its VNID, and whether the table is
    what the lists and the sharing of VNIDs now call for. */
module PolicyRuns {
  import opened Wrappers
  import opened Cidr
  import opened EgressPolicy
  import opened Proxy
  import opened PolicyNode
  import Vnids

  // ---- the entries of one namespace -----------------------------------------------------

  /** The entries of the namespace, in their order. */
  function Own(list: seq<Entry>, ns: string): seq<Entry> {
    if list == [] then [] else if list[0].ns == ns then [list[0]] + Own(list[1..], ns) else Own(list[1..], ns)
  }

  lemma {:induction false} OwnConcat(a: seq<Entry>, b: seq<Entry>, ns: string)
    ensures Own(a + b, ns) == Own(a, ns) + Own(b, ns)
    decreases |a|
  {
    if a == [] {
      assert a + b == b;
    } else {
      OwnConcat(a[1..], b, ns);
      assert (a + b)[0] == a[0] && (a + b)[1..] == a[1..] + b;
      assert [a[0]] + (Own(a[1..], ns) + Own(b, ns)) == ([a[0]] + Own(a[1..], ns)) + Own(b, ns);
    }
  }

  lemma {:induction false} OwnIs(list: seq<Entry>, ns: string)
    ensures forall e :: e in Own(list, ns) <==> e in list && e.ns == ns
    decreases |list|
  {
    if list != [] { OwnIs(list[1..], ns); }
  }

  /** Taking out the first entry of the namespace takes out the first of its own list. */
  lemma {:induction false} OwnFirst(list: seq<Entry>, ns: string)
    ensures var i := FirstOf(list, ns);
            if i == |list| then Own(list, ns) == []
            else Own(list, ns) == [list[i]] + Own(list[..i] + list[i + 1..], ns)
    decreases |list|
  {
    if list != [] {
      var i := FirstOf(list, ns);
      if list[0].ns == ns {
        assert list[..0] + list[1..] == list[1..];
      } else {
        OwnFirst(list[1..], ns);
        if i < |list| {
          assert (list[..i] + list[i + 1..])[1..] == list[1..][..i - 1] + list[1..][i..];
        }
      }
    }
  }

  lemma {:induction false} OwnKeepsOther(list: seq<Entry>, policy: string, ns: string)
    requires forall e | e in list && e.policy == policy :: e.ns != ns
    ensures Own(Without(list, policy), ns) == Own(list, ns)
    decreases |list|
  {
    if list != [] && list[0].policy != policy { OwnKeepsOther(list[1..], policy, ns); }
  }

  lemma {:induction false} OwnWithout(list: seq<Entry>, policy: string, ns: string)
    requires forall e | e in list && e.policy == policy :: e.ns == ns
    ensures Own(Without(list, policy), ns) == Without(Own(list, ns), policy)
    decreases |list|
  {
    if list != [] {
      var rest := list[1..];
      if list[0].policy == policy {
        assert list[0] in list;
        assert ([list[0]] + Own(rest, ns))[1..] == Own(rest, ns);
      } else {
        OwnWithout(rest, policy, ns);
        var a, c := [list[0]] + Without(rest, policy), [list[0]] + Own(rest, ns);
        assert a[0] == list[0] == c[0] && a[1..] == Without(rest, policy) && c[1..] == Own(rest, ns);
      }
    }
  }

  ghost function OwnUnder(b: Book, vnid: nat, ns: string): seq<Entry> {
    Own(Under(b, vnid), ns)
  }

  /** A change of VNID moves the first entry of the namespace and no other. */
  lemma MoveOwn(b: Book, ns: string, from: nat, to: nat, vnid: nat)
    requires from != to
    ensures var own := OwnUnder(b, from, ns);
            OwnUnder(Move(b, ns, from, to), vnid, ns) ==
              if own == [] then OwnUnder(b, vnid, ns)
              else if vnid == from then own[1..]
              else if vnid == to then OwnUnder(b, to, ns) + [own[0]]
              else OwnUnder(b, vnid, ns)
  {
    hide Own, FirstOf;
    var list := Under(b, from);
    var i := FirstOf(list, ns);
    OwnFirst(list, ns);
    if i < |list| {
      OwnConcat(Under(b, to), [list[i]], ns);
      OwnOne(list[i]);
    }
  }

  lemma OwnOne(e: Entry)
    ensures Own([e], e.ns) == [e] && forall ns | ns != e.ns :: Own([e], ns) == []
  {
  }

  /** A change of VNID leaves nothing of the namespace behind iff it had at most one entry there. */
  lemma MoveLeavesNoneIff(b: Book, ns: string, from: nat, to: nat)
    requires from != to
    ensures (forall e | e in Under(Move(b, ns, from, to), from) :: e.ns != ns) <==> |OwnUnder(b, from, ns)| <= 1
  {
    hide Own, Move;
    MoveOwn(b, ns, from, to, from);
    var own := OwnUnder(Move(b, ns, from, to), from, ns);
    OwnIs(Under(Move(b, ns, from, to), from), ns);
    assert own == [] <==> forall e :: e !in own by { if own != [] { assert own[0] in own; } }
  }

  lemma MoveOther(b: Book, m: string, from: nat, to: nat, vnid: nat, ns: string)
    requires m != ns
    ensures OwnUnder(Move(b, m, from, to), vnid, ns) == OwnUnder(b, vnid, ns)
  {
    hide Own, FirstOf;
    var list := Under(b, from);
    var i := FirstOf(list, m);
    if Moves(b, m, from, to) {
      OwnWithoutAt(list, i, ns);
      OwnConcat(Under(b, to), [list[i]], ns);
      OwnOne(list[i]);
    }
  }

  lemma OwnWithoutAt(list: seq<Entry>, i: nat, ns: string)
    requires i < |list| && list[i].ns != ns
    ensures Own(list[..i] + list[i + 1..], ns) == Own(list, ns)
  {
    hide Own;
    var a, c, e := list[..i], list[i + 1..], list[i];
    assert list == a + ([e] + c);
    OwnOne(e);
    OwnConcat(a, c, ns);
    OwnConcat(a, [e] + c, ns);
    OwnConcat([e], c, ns);
  }

  // ---- where entries come from ----------------------------------------------------------

  /** An event only moves entries, or enters its own. */
  lemma StepEntries(ids: map<string, nat>, b: Book, op: Op, vnid: nat)
    ensures forall e | e in Under(BookStep(ids, b, op), vnid) ::
              (exists v: nat :: e in Under(b, v)) || (e.rules != [] && op == SetPolicy(e.ns, e.policy, e.rules))
  {
    forall e | e in Under(BookStep(ids, b, op), vnid)
      ensures (exists v: nat :: e in Under(b, v)) || (e.rules != [] && op == SetPolicy(e.ns, e.policy, e.rules))
    {
      match op
      case SetPolicy(ns, policy, rules) =>
        if ns in ids && vnid == ids[ns] {
          WithoutIsSubset(Under(b, vnid), policy);
          assert e in Under(b, vnid) || e == Entry(ns, policy, rules);
        } else {
          assert e in Under(b, vnid);
        }
      case SetNetID(ns, netID) => MoveEntries(b, ns, At(ids, ns), netID, vnid, e);
      case ForgetNetID(ns) => MoveEntries(b, ns, At(ids, ns), 0, vnid, e);
      case _ => assert e in Under(b, vnid);
    }
  }

  lemma {:induction false} WithoutIsSubset(list: seq<Entry>, policy: string)
    ensures forall e | e in Without(list, policy) :: e in list
    decreases |list|
  {
    if list != [] { WithoutIsSubset(list[1..], policy); }
  }

  lemma MoveEntries(b: Book, ns: string, from: nat, to: nat, vnid: nat, e: Entry)
    requires e in Under(Move(b, ns, from, to), vnid)
    ensures exists v: nat :: e in Under(b, v)
  {
    if e !in Under(b, vnid) {
      assert e in Under(b, from);
    }
  }

  /** Every entry was given, with rules, by some event. */
  lemma {:induction false} EntriesAreGiven(ops: seq<Op>, vnid: nat)
    ensures forall e | e in Under(BookAfter(ops), vnid) ::
              e.rules != [] && SetPolicy(e.ns, e.policy, e.rules) in ops
    decreases |ops|
  {
    hide NetIDsAfter, BookStep;
    if ops != [] {
      var op, init := ops[|ops| - 1], ops[..|ops| - 1];
      forall v: nat, e | e in Under(BookAfter(init), v)
        ensures e.rules != [] && SetPolicy(e.ns, e.policy, e.rules) in ops
      {
        EntriesAreGiven(init, v);
        assert SetPolicy(e.ns, e.policy, e.rules) in init;
      }
      StepEntries(NetIDsAfter(init), BookAfter(init), op, vnid);
    }
  }

  // ---- the node's list is the last policies ----------------------------------------------

  /** `list` lists the nonempty policies of the map, each once. */
  ghost predicate Keeps(list: seq<Entry>, policies: map<string, seq<Rule>>) {
    && Distinct(list)
    && (forall e {:trigger e in list} | e in list :: e.policy in policies && policies[e.policy] == e.rules != [])
    && (forall p {:trigger policies[p]} | p in policies && policies[p] != [] :: exists e :: e in list && e.policy == p)
  }

  ghost predicate Distinct(list: seq<Entry>) {
    forall i, j {:trigger list[i], list[j]} | 0 <= i < j < |list| :: list[i].policy != list[j].policy
  }

  lemma TailDistinct(list: seq<Entry>)
    requires Distinct(list) && list != []
    ensures Distinct(list[1..]) && (forall e | e in list[1..] :: e.policy != list[0].policy)
    ensures forall e :: e in list <==> e == list[0] || e in list[1..]
  {
    assert list == [list[0]] + list[1..];
  }

  lemma ConsDistinct(e: Entry, list: seq<Entry>)
    requires Distinct(list) && forall x | x in list :: x.policy != e.policy
    ensures Distinct([e] + list)
  {
  }

  lemma {:induction false} WithoutKeeps(list: seq<Entry>, policy: string)
    requires Distinct(list)
    ensures Distinct(Without(list, policy))
    ensures forall e :: e in Without(list, policy) <==> e in list && e.policy != policy
    decreases |list|
  {
    hide Distinct;
    if list != [] {
      TailDistinct(list);
      WithoutKeeps(list[1..], policy);
      if list[0].policy != policy {
        ConsDistinct(list[0], Without(list[1..], policy));
      }
    }
  }

  lemma KeepsStep(list: seq<Entry>, policies: map<string, seq<Rule>>, ns: string, policy: string, rules: seq<Rule>)
    requires Keeps(list, policies)
    ensures Keeps(Without(list, policy) + if rules != [] then [Entry(ns, policy, rules)] else [],
                  policies[policy := rules])
  {
    WithoutKeeps(list, policy);
    var r, after := Without(list, policy), policies[policy := rules];
    var list' := r + if rules != [] then [Entry(ns, policy, rules)] else [];
    forall p | p in after && after[p] != [] ensures exists e :: e in list' && e.policy == p {
      if p == policy {
        assert Entry(ns, policy, rules) in list';
      } else {
        assert policies[p] != [];
        var e :| e in list && e.policy == p;
        assert e in list';
      }
    }
  }

  ghost function WithRules(policies: map<string, seq<Rule>>): map<string, seq<Rule>> {
    map p | p in policies && policies[p] != [] :: policies[p]
  }

  lemma KeptNames(list: seq<Entry>, policies: map<string, seq<Rule>>)
    requires Keeps(list, policies)
    ensures |list| == |WithRules(policies)|
    ensures (set e | e in list :: e.policy) == WithRules(policies).Keys
  {
    assert (set e | e in list :: e.policy) == WithRules(policies).Keys;
    NamesCard(list);
    assert |WithRules(policies)| == |WithRules(policies).Keys|;
  }

  lemma {:induction false} NamesCard(list: seq<Entry>)
    requires Distinct(list)
    ensures |set e | e in list :: e.policy| == |list|
    decreases |list|
  {
    var names := set e | e in list :: e.policy;
    if list == [] {
      assert names == {};
    } else {
      var init, last := list[..|list| - 1], list[|list| - 1];
      NamesCard(init);
      assert list == init + [last];
      assert names == (set e | e in init :: e.policy) + {last.policy};
      assert forall e | e in init :: e.policy != last.policy;
    }
  }

  /** The policies of the namespace as the events left them that came while its VNID was known. */
  function Served(ops: seq<Op>, ns: string): map<string, seq<Rule>> {
    if ops == [] then map[]
    else
      var op, init := ops[|ops| - 1], ops[..|ops| - 1];
      if op.SetPolicy? && op.ns == ns && ns in NetIDsAfter(init) then Served(init, ns)[op.policy := op.rules]
      else Served(init, ns)
  }

  /** A policy belongs to one namespace. */
  ghost predicate UniqueUIDs(ops: seq<Op>) {
    forall a, b | a in ops && b in ops && a.SetPolicy? && b.SetPolicy? && a.policy == b.policy :: a.ns == b.ns
  }

  /** The event gives the namespace another VNID. */
  predicate Relocates(ids: map<string, nat>, op: Op, ns: string) {
    At(NetIDsStep(ids, op), ns) != At(ids, ns)
  }

  /** Whenever the namespace changes its VNID, at most one of its policies has rules. */
  ghost predicate SmallMoves(ops: seq<Op>, ns: string) {
    forall i {:trigger ops[i]} | 0 <= i < |ops| && Relocates(NetIDsAfter(ops[..i]), ops[i], ns) ::
      |WithRules(Served(ops[..i], ns))| <= 1
  }

  /** The node lists exactly the served policies with rules of the namespace under its VNID. */
  ghost predicate Kept(ops: seq<Op>, ns: string) {
    Keeps(OwnUnder(BookAfter(ops), At(NetIDsAfter(ops), ns), ns), Served(ops, ns))
  }

  /** Under `at` the node lists exactly the given policies of the namespace, and none elsewhere. */
  ghost predicate Housed(b: Book, ns: string, at: nat, policies: map<string, seq<Rule>>) {
    Keeps(OwnUnder(b, at, ns), policies) && forall v: nat | v != at :: OwnUnder(b, v, ns) == []
  }

  lemma PolicyKeepsHoused(ids: map<string, nat>, b: Book, ns: string, policy: string, rules: seq<Rule>,
                          policies: map<string, seq<Rule>>)
    requires ns in ids && Housed(b, ns, ids[ns], policies)
    requires forall e | e in Under(b, ids[ns]) && e.policy == policy :: e.ns == ns
    ensures Housed(BookStep(ids, b, SetPolicy(ns, policy, rules)), ns, ids[ns], policies[policy := rules])
  {
    hide Keeps, Own, Without;
    var at := ids[ns];
    var list := Under(b, at);
    var more := if rules != [] then [Entry(ns, policy, rules)] else [];
    var b' := BookStep(ids, b, SetPolicy(ns, policy, rules));
    KeepsStep(Own(list, ns), policies, ns, policy, rules);
    OwnWithout(list, policy, ns);
    OwnConcat(Without(list, policy), more, ns);
    OwnOne(Entry(ns, policy, rules));
    OwnNone(ns);
    assert OwnUnder(b', at, ns) == Without(Own(list, ns), policy) + more;
    forall v: nat | v != at ensures OwnUnder(b', v, ns) == [] {
      assert OwnUnder(b, v, ns) == [];
    }
  }

  lemma OwnNone(ns: string)
    ensures Own([], ns) == []
  {
  }

  lemma OtherPolicyKeepsOwn(ids: map<string, nat>, b: Book, m: string, policy: string, rules: seq<Rule>,
                            vnid: nat, ns: string)
    requires m != ns && forall e | e in Under(b, vnid) && e.policy == policy :: e.ns != ns
    ensures OwnUnder(BookStep(ids, b, SetPolicy(m, policy, rules)), vnid, ns) == OwnUnder(b, vnid, ns)
  {
    hide Own, Without;
    if m in ids && vnid == ids[m] {
      var list := Under(b, vnid);
      var more := if rules != [] then [Entry(m, policy, rules)] else [];
      OwnKeepsOther(list, policy, ns);
      OwnConcat(Without(list, policy), more, ns);
      OwnOne(Entry(m, policy, rules));
      OwnNone(ns);
    }
  }

  /** Events about other things leave the entries of the namespace alone. */
  lemma OthersKeepOwn(ids: map<string, nat>, b: Book, op: Op, vnid: nat, ns: string)
    requires !Relocates(ids, op, ns) && !(op.SetPolicy? && op.ns == ns && ns in ids)
    requires forall e | op.SetPolicy? && e in Under(b, vnid) && e.policy == op.policy :: e.ns == op.ns
    ensures OwnUnder(BookStep(ids, b, op), vnid, ns) == OwnUnder(b, vnid, ns)
  {
    hide Own, Without, Move;
    match op
    case SetPolicy(m, policy, rules) =>
      if m != ns { OtherPolicyKeepsOwn(ids, b, m, policy, rules, vnid, ns); }
    case SetNetID(m, netID) =>
      if m != ns { MoveOther(b, m, At(ids, m), netID, vnid, ns); } else { StaysPut(b, ns, netID); }
    case ForgetNetID(m) =>
      if m != ns { MoveOther(b, m, At(ids, m), 0, vnid, ns); } else { StaysPut(b, ns, 0); }
    case _ =>
  }

  lemma StaysPut(b: Book, ns: string, at: nat)
    ensures Move(b, ns, at, at) == b
  {
  }

  lemma RelocationIsMove(ids: map<string, nat>, b: Book, op: Op, ns: string)
    requires Relocates(ids, op, ns)
    ensures BookStep(ids, b, op) == Move(b, ns, At(ids, ns), At(NetIDsStep(ids, op), ns))
    ensures !op.SetPolicy?
  {
    hide Move;
  }

  /** A change of VNID keeps a namespace with at most one entry together. */
  lemma MoveKeepsHoused(b: Book, ns: string, from: nat, to: nat, policies: map<string, seq<Rule>>)
    requires from != to && Housed(b, ns, from, policies) && |OwnUnder(b, from, ns)| <= 1
    ensures Housed(Move(b, ns, from, to), ns, to, policies)
  {
    hide Keeps, OwnUnder, Move;
    var own, b' := OwnUnder(b, from, ns), Move(b, ns, from, to);
    MoveOwn(b, ns, from, to, to);
    assert OwnUnder(b', to, ns) == own by {
      assert OwnUnder(b, to, ns) == [];
      assert own != [] ==> [] + [own[0]] == own;
    }
    forall v: nat | v != to ensures OwnUnder(b', v, ns) == [] {
      MoveOwn(b, ns, from, to, v);
    }
  }

  /** With several entries only the first arrives. */
  lemma MoveSplits(b: Book, ns: string, from: nat, to: nat, policies: map<string, seq<Rule>>)
    requires from != to && Housed(b, ns, from, policies) && |OwnUnder(b, from, ns)| >= 2
    ensures OwnUnder(Move(b, ns, from, to), to, ns) == [OwnUnder(b, from, ns)[0]]
    ensures OwnUnder(Move(b, ns, from, to), from, ns) == OwnUnder(b, from, ns)[1..]
    ensures !Keeps(OwnUnder(Move(b, ns, from, to), to, ns), policies)
  {
    hide OwnUnder, Move, Keeps;
    MoveOwn(b, ns, from, to, to);
    MoveOwn(b, ns, from, to, from);
    assert OwnUnder(b, to, ns) == [];
    var own := OwnUnder(b, from, ns);
    assert [] + [own[0]] == [own[0]];
    KeptNames(own, policies);
    if Keeps([own[0]], policies) { KeptNames([own[0]], policies); }
  }

  lemma RunBefore(ops: seq<Op>, ns: string)
    requires ops != []
    ensures UniqueUIDs(ops) ==> UniqueUIDs(ops[..|ops| - 1])
    ensures var op, init := ops[|ops| - 1], ops[..|ops| - 1];
            SmallMoves(ops, ns) <==> SmallMoves(init, ns)
                                     && (Relocates(NetIDsAfter(init), op, ns) ==> |WithRules(Served(init, ns))| <= 1)
  {
    hide Served, NetIDsAfter, Relocates, WithRules;
    var op, init := ops[|ops| - 1], ops[..|ops| - 1];
    assert forall i | 0 <= i < |init| :: init[i] == ops[i] && init[..i] == ops[..i];
    if SmallMoves(ops, ns) {
      forall i | 0 <= i < |init| && Relocates(NetIDsAfter(init[..i]), init[i], ns)
        ensures |WithRules(Served(init[..i], ns))| <= 1
      {
        assert ops[i] == init[i];
      }
      assert ops[|init|] == op;
    }
  }

  /** A policy of the last event has no entry of another namespace. */
  lemma LastIsOwner(ops: seq<Op>, vnid: nat)
    requires UniqueUIDs(ops) && ops != []
    ensures var op, init := ops[|ops| - 1], ops[..|ops| - 1];
            forall e | op.SetPolicy? && e in Under(BookAfter(init), vnid) && e.policy == op.policy :: e.ns == op.ns
  {
    hide BookAfter;
    var init := ops[..|ops| - 1];
    EntriesAreGiven(init, vnid);
    assert forall o | o in init :: o in ops;
    assert ops[|ops| - 1] in ops;
  }

  /** When a namespace changes its VNID only with at most one policy with rules, all of
      its policies stand under its VNID, at every moment. */
  lemma {:induction false} SmallMovesHouse(ops: seq<Op>, ns: string)
    requires UniqueUIDs(ops) && SmallMoves(ops, ns)
    ensures Housed(BookAfter(ops), ns, At(NetIDsAfter(ops), ns), Served(ops, ns))
    decreases |ops|
  {
    hide Housed, SmallMoves, UniqueUIDs, NetIDsStep, BookStep, Relocates, WithRules;
    if ops == [] {
      NothingHoused(ns);
    } else {
      RunBefore(ops, ns);
      SmallMovesHouse(ops[..|ops| - 1], ns);
      StepHouses(ops, ns);
    }
  }

  lemma NothingHoused(ns: string)
    ensures Housed(map[], ns, 0, map[])
  {
  }

  lemma StepHouses(ops: seq<Op>, ns: string)
    requires UniqueUIDs(ops) && ops != []
    requires var init := ops[..|ops| - 1]; Housed(BookAfter(init), ns, At(NetIDsAfter(init), ns), Served(init, ns))
    requires var op, init := ops[|ops| - 1], ops[..|ops| - 1];
             Relocates(NetIDsAfter(init), op, ns) ==> |WithRules(Served(init, ns))| <= 1
    ensures Housed(BookAfter(ops), ns, At(NetIDsAfter(ops), ns), Served(ops, ns))
  {
    hide Keeps, UniqueUIDs, OwnUnder, BookStep, Move, WithRules;
    var op, init := ops[|ops| - 1], ops[..|ops| - 1];
    var ids, b, policies := NetIDsAfter(init), BookAfter(init), Served(init, ns);
    if Relocates(ids, op, ns) {
      RelocationIsMove(ids, b, op, ns);
      KeptNames(OwnUnder(b, At(ids, ns), ns), policies);
      MoveKeepsHoused(b, ns, At(ids, ns), At(NetIDsStep(ids, op), ns), policies);
    } else if op.SetPolicy? && op.ns == ns && ns in ids {
      LastIsOwner(ops, ids[ns]);
      PolicyKeepsHoused(ids, b, ns, op.policy, op.rules, policies);
    } else {
      forall v: nat ensures OwnUnder(BookStep(ids, b, op), v, ns) == OwnUnder(b, v, ns) {
        LastIsOwner(ops, v);
        OthersKeepOwn(ids, b, op, v, ns);
      }
    }
  }

  /** At every moment of the run the node lists exactly the policies of the namespace
      under its VNID iff no change of VNID comes while two policies have rules. */
  lemma {:induction false} NodeKeepsIff(ops: seq<Op>, ns: string)
    requires UniqueUIDs(ops)
    ensures (forall i | 0 <= i <= |ops| :: Kept(ops[..i], ns)) <==> SmallMoves(ops, ns)
    decreases |ops|
  {
    hide Kept, SmallMoves, UniqueUIDs, BookAfter, NetIDsAfter, Served, Relocates, WithRules;
    assert ops[..|ops|] == ops;
    if ops == [] {
      NothingMoved(ns);
      HousedIsKept(ops, ns);
    } else {
      var op, init := ops[|ops| - 1], ops[..|ops| - 1];
      RunBefore(ops, ns);
      NodeKeepsIff(init, ns);
      assert forall i | 0 <= i <= |init| :: init[..i] == ops[..i];
      if SmallMoves(ops, ns) {
        HousedIsKept(ops, ns);
        forall i | 0 <= i <= |ops| ensures Kept(ops[..i], ns) {
          assert i < |ops| ==> Kept(init[..i], ns);
        }
      } else if SmallMoves(init, ns) {
        BadMoveSplits(ops, ns);
        assert !Kept(ops[..|ops|], ns);
      } else {
        var i :| 0 <= i <= |init| && !Kept(init[..i], ns);
        assert !Kept(ops[..i], ns);
      }
    }
  }

  lemma NothingMoved(ns: string)
    ensures UniqueUIDs([]) && SmallMoves([], ns)
  {
  }

  lemma HousedIsKept(ops: seq<Op>, ns: string)
    requires UniqueUIDs(ops) && SmallMoves(ops, ns)
    ensures Kept(ops, ns)
  {
    hide Keeps, SmallMoves, UniqueUIDs, BookAfter, NetIDsAfter, Served;
    SmallMovesHouse(ops, ns);
  }

  /** The first change of VNID with two policies with rules takes one along and leaves
      the others behind. */
  lemma BadMoveSplits(ops: seq<Op>, ns: string)
    requires UniqueUIDs(ops) && ops != [] && SmallMoves(ops[..|ops| - 1], ns)
    requires var op, init := ops[|ops| - 1], ops[..|ops| - 1];
             Relocates(NetIDsAfter(init), op, ns) && |WithRules(Served(init, ns))| >= 2
    ensures !Kept(ops, ns)
    ensures var from, to := At(NetIDsAfter(ops[..|ops| - 1]), ns), At(NetIDsAfter(ops), ns);
            var own := OwnUnder(BookAfter(ops[..|ops| - 1]), from, ns);
            && |own| >= 2 && Keeps(own, Served(ops, ns))
            && OwnUnder(BookAfter(ops), to, ns) == [own[0]] && OwnUnder(BookAfter(ops), from, ns) == own[1..]
  {
    hide Keeps, SmallMoves, UniqueUIDs, OwnUnder, BookStep, Move, WithRules;
    var op, init := ops[|ops| - 1], ops[..|ops| - 1];
    var ids, b, policies := NetIDsAfter(init), BookAfter(init), Served(init, ns);
    RunBefore(ops, ns);
    SmallMovesHouse(init, ns);
    RelocationIsMove(ids, b, op, ns);
    KeptNames(OwnUnder(b, At(ids, ns), ns), policies);
    MoveSplits(b, ns, At(ids, ns), At(NetIDsStep(ids, op), ns), policies);
  }

  // ---- the table ----------------------------------------------------------------------

  /** The flows of a VNID other than 0 are made from the policies now listed under it; VNID 0 has none. */
  ghost predicate Current(loads: Loads, b: Book, vnid: nat) {
    if vnid in loads then loads[vnid].policies == if vnid == 0 then [] else AllRules(Under(b, vnid))
    else vnid == 0 || Under(b, vnid) == []
  }

  lemma ReloadIsCurrent(loads: Loads, b: Book, b': Book, ids: map<string, nat>, at: nat, vnid: nat)
    requires vnid != at ==> Current(loads, b, vnid) && Under(b, vnid) == Under(b', vnid)
    requires vnid == 0 ==> Current(loads, b, 0)
    ensures Current(Reload(loads, b', ids, at), b', vnid)
  {
  }

  lemma MoveIsCurrent(loads: Loads, b: Book, ids: map<string, nat>, ns: string, from: nat, to: nat, vnid: nat)
    requires Current(loads, b, vnid) && Moves(b, ns, from, to)
    ensures Current(MoveLoads(loads, Move(b, ns, from, to), ids, from, to), Move(b, ns, from, to), vnid)
  {
    hide FirstOf;
    var b' := Move(b, ns, from, to);
    if vnid == from {
      ReloadIsCurrent(loads, b, b', ids, from, vnid);
      ReloadIsCurrent(Reload(loads, b', ids, from), b', b', ids, to, vnid);
    } else {
      assert Current(Reload(loads, b', ids, from), b, vnid);
      ReloadIsCurrent(Reload(loads, b', ids, from), b, b', ids, to, vnid);
    }
  }

  lemma {:induction false} LoadsAreCurrent(ops: seq<Op>, vnid: nat)
    ensures Current(LoadsAfter(ops), BookAfter(ops), vnid)
    decreases |ops|
  {
    hide Current, Reload, MoveLoads, FirstOf, Without, NetIDsAfter, Move, Moves;
    if ops == [] {
      NothingLoaded(vnid);
    } else {
      var op, init := ops[|ops| - 1], ops[..|ops| - 1];
      LoadsAreCurrent(init, vnid);
      StepIsCurrent(NetIDsAfter(init), BookAfter(init), LoadsAfter(init), op, vnid);
    }
  }

  lemma NothingLoaded(vnid: nat)
    ensures Current(map[], map[], vnid)
  {
  }

  lemma StepIsCurrent(ids: map<string, nat>, b: Book, loads: Loads, op: Op, vnid: nat)
    requires Current(loads, b, vnid)
    ensures Current(LoadsStep(ids, b, loads, op), BookStep(ids, b, op), vnid)
  {
    hide Current, Reload, MoveLoads, FirstOf, Without;
    var ids', b' := NetIDsStep(ids, op), BookStep(ids, b, op);
    match op
    case SetPolicy(ns, policy, rules) =>
      if ns in ids { ReloadIsCurrent(loads, b, b', ids', ids[ns], vnid); }
    case SetNetID(ns, netID) =>
      if Moves(b, ns, At(ids, ns), netID) { MoveIsCurrent(loads, b, ids', ns, At(ids, ns), netID, vnid); }
    case ForgetNetID(ns) =>
      if Moves(b, ns, At(ids, ns), 0) { MoveIsCurrent(loads, b, ids', ns, At(ids, ns), 0, vnid); }
    case _ =>
  }

  /** Nothing of the global VNID is ever dropped. */
  lemma GlobalIsOpen(ops: seq<Op>, x: nat)
    ensures VerdictOf(LoadsAfter(ops), 0, x) == Allow
  {
    hide LoadsAfter, BookAfter;
    LoadsAreCurrent(ops, 0);
  }

  /** How many namespaces had the VNID when its flows were last made. */
  function SharersSeen(ops: seq<Op>, vnid: nat): nat {
    if vnid in LoadsAfter(ops) then LoadsAfter(ops)[vnid].sharers else 0
  }

  lemma VerdictIs(ops: seq<Op>, vnid: nat, x: nat)
    requires vnid != 0
    ensures VerdictOf(LoadsAfter(ops), vnid, x) ==
              Meaning(AllRules(Under(BookAfter(ops), vnid)), SharersSeen(ops, vnid), x)
  {
    hide LoadsAfter, BookAfter;
    LoadsAreCurrent(ops, vnid);
  }

  /** The table treats a destination as the policies of the VNID and the namespaces that
      now share it call for, iff there are no or several policies, or the only one denies
      the destination, or the VNID is shared exactly if it was when its flows were last made. */
  lemma TableIsCurrentIff(ops: seq<Op>, vnid: nat, x: nat)
    requires vnid != 0
    ensures var list := Under(BookAfter(ops), vnid);
            VerdictOf(LoadsAfter(ops), vnid, x) ==
            Meaning(AllRules(list), |Vnids.Holders(NetIDsAfter(ops), vnid)|, x)
            <==> |list| != 1 || FirstMatch(list[0].rules, x) == Deny
                 || (SharersSeen(ops, vnid) > 1 <==> |Vnids.Holders(NetIDsAfter(ops), vnid)| > 1)
  {
    hide LoadsAfter, BookAfter, NetIDsAfter, SharersSeen, Vnids.Holders;
    VerdictIs(ops, vnid, x);
  }

  lemma Snoc(ops: seq<Op>, op: Op)
    ensures NetIDsAfter(ops + [op]) == NetIDsStep(NetIDsAfter(ops), op)
    ensures BookAfter(ops + [op]) == BookStep(NetIDsAfter(ops), BookAfter(ops), op)
    ensures LoadsAfter(ops + [op]) == LoadsStep(NetIDsAfter(ops), BookAfter(ops), LoadsAfter(ops), op)
  {
    assert (ops + [op])[..|ops|] == ops;
  }

  lemma NothingYet()
    ensures NetIDsAfter([]) == map[] && BookAfter([]) == map[] && LoadsAfter([]) == map[]
  {
  }

  /** The first policy of a namespace that is known is the only entry. */
  lemma FirstPolicy(ids: map<string, nat>, ns: string, policy: string, rules: seq<Rule>)
    requires ns in ids && rules != []
    ensures BookStep(ids, map[], SetPolicy(ns, policy, rules)) == map[ids[ns] := [Entry(ns, policy, rules)]]
  {
    assert Without([], policy) + [Entry(ns, policy, rules)] == [Entry(ns, policy, rules)];
  }

  lemma OnlyRules(e: Entry)
    ensures AllRules([e]) == [e.rules]
  {
  }

  function Any(verdict: Verdict): seq<Rule> {
    [Rule(verdict, Cidr(0, 0))]
  }

  lemma AnyDecides(verdict: Verdict, x: nat)
    requires x < Pow2(32)
    ensures FirstMatch(Any(verdict), x) == verdict
  {
    hide Contains, Pow2;
    EverythingContains(x);
    assert RuleHits(Any(verdict)[0], x);
  }

  /** A namespace without policies that joins a VNID goes unnoticed: the table still
      follows the one policy, where a shared VNID calls for dropping everything. */
  lemma JoinerIsUnnoticed(x: nat)
    requires x < Pow2(32)
    ensures var ops := [SetNetID("a", 5), SetPolicy("a", "p", Any(Allow)), SetNetID("b", 5)];
            && VerdictOf(LoadsAfter(ops), 5, x) == Allow
            && Meaning(AllRules(Under(BookAfter(ops), 5)), |Vnids.Holders(NetIDsAfter(ops), 5)|, x) == Deny
  {
    hide Pow2, NetIDsAfter, BookAfter, LoadsAfter, FirstMatch, AllRules, Any, BookStep, Without;
    var r := Any(Allow);
    var a, b, c := SetNetID("a", 5), SetPolicy("a", "p", r), SetNetID("b", 5);
    var e := Entry("a", "p", r);
    NothingYet();
    Snoc([], a);
    Snoc([a], b);
    Snoc([a, b], c);
    assert [] + [a] == [a] && [a] + [b] == [a, b] && [a, b] + [c] == [a, b, c];
    SomeRules(Allow);
    NothingMoves(map[], "a", 0, 5);
    assert NetIDsAfter([a, b]) == map["a" := 5];
    FirstPolicy(map["a" := 5], "a", "p", r);
    assert Vnids.Holders(map["a" := 5], 5) == {"a"};
    assert LoadsAfter([a, b]) == map[5 := Load(AllRules([e]), 1)];
    NothingMoves(map[5 := [e]], "b", 0, 5);
    assert Vnids.Holders(NetIDsAfter([a, b, c]), 5) == {"a", "b"};
    OnlyRules(e);
    AnyDecides(Allow, x);
  }

  lemma SomeRules(verdict: Verdict)
    ensures Any(verdict) != []
  {
  }

  lemma NothingMoves(b: Book, ns: string, from: nat, to: nat)
    requires Under(b, from) == []
    ensures Move(b, ns, from, to) == b && !Moves(b, ns, from, to)
    ensures forall ids: map<string, nat> | At(ids, ns) == from :: BookStep(ids, b, SetNetID(ns, to)) == b
  {
  }
}
