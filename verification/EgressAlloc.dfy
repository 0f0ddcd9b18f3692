/** The automatic allocator: which node should host which egress IP, computed
    from the tracker's tables without changing them. */
module EgressAlloc {
  import opened EgressState
  import opened EgressTables

  /** From node name to the addresses the node is to host. */
  type Allocation = map<string, seq<string>>

  /** What the allocator reads.  `covers(cidr, ip)` says whether a CIDR contains an address. */
  datatype Fleet = Fleet(
    egs: IPTable,
    nodes: map<string, NodeId>,
    store: NodeTable,
    spaces: SpaceTable,
    covers: (string, string) -> bool)

  /** The tables fit together, an assigned address has one host, and node names
      are unique and nonempty. */
  ghost predicate WellFormed(f: Fleet) {
    && (forall u {:trigger f.nodes[u]} | u in f.nodes :: f.nodes[u] in f.store && f.store[f.nodes[u]].nodeName != "")
    && (forall u, w {:trigger f.nodes[u], f.nodes[w]} | u in f.nodes && w in f.nodes && u != w ::
          f.store[f.nodes[u]].nodeName != f.store[f.nodes[w]].nodeName)
    && (forall ip, i {:trigger f.egs[ip].nodes[i]} | ip in f.egs && 0 <= i < |f.egs[ip].nodes| ::
          f.egs[ip].nodes[i] in f.nodes.Values)
    && (forall ip, i {:trigger f.egs[ip].namespaces[i]} | ip in f.egs && 0 <= i < |f.egs[ip].namespaces| ::
          f.egs[ip].namespaces[i] in f.spaces)
    && (forall ip {:trigger f.egs[ip]} | ip in f.egs && f.egs[ip].assignedNodeIP != "" :: |f.egs[ip].nodes| == 1)
  }

  predicate Covers(f: Fleet, n: NodeId, ip: string)
    requires n in f.store
  {
    exists c | c in f.store[n].requestedCIDRs :: f.covers(c, ip)
  }

  /** An online node with a CIDR that contains the address. */
  predicate CanHost(f: Fleet, n: NodeId, ip: string) {
    n in f.store && !f.store[n].offline && Covers(f, n, ip)
  }

  /** The node is online, and the address lies in one of its CIDRs. */
  ghost predicate Able(f: Fleet, n: NodeId, ip: string) {
    && n in f.store && !f.store[n].offline
    && exists c :: c in f.store[n].requestedCIDRs && f.covers(c, ip)
  }

  lemma AbleIs(f: Fleet, n: NodeId, ip: string)
    ensures CanHost(f, n, ip) <==> Able(f, n, ip)
  {
  }

  /** The names of the tracked nodes among `uids` that can host the address. */
  ghost function CandidatesAmong(f: Fleet, ip: string, uids: set<string>): set<string> {
    set u | u in uids && u in f.nodes && Able(f, f.nodes[u], ip) :: f.store[f.nodes[u]].nodeName
  }

  ghost function Candidates(f: Fleet, ip: string): set<string> {
    CandidatesAmong(f, ip, f.nodes.Keys)
  }

  /** The names of the tracked nodes that have egress CIDRs. */
  ghost function Automatic(f: Fleet): set<string> {
    set u | u in f.nodes && f.nodes[u] in f.store && f.store[f.nodes[u]].requestedCIDRs != {} ::
        f.store[f.nodes[u]].nodeName
  }

  lemma CandidatesAreAutomatic(f: Fleet, ip: string)
    ensures Candidates(f, ip) <= Automatic(f)
  {
  }

  /** May be placed automatically: asked for by one namespace, as its only address, and on no two nodes. */
  ghost predicate Eligible(f: Fleet, ip: string) {
    && ip in f.egs && |f.egs[ip].namespaces| == 1 && |f.egs[ip].nodes| <= 1
    && f.egs[ip].namespaces[0] in f.spaces && |f.spaces[f.egs[ip].namespaces[0]].requestedIPs| <= 1
  }

  predicate Assigned(f: Fleet, ip: string) {
    ip in f.egs && f.egs[ip].assignedNodeIP != ""
  }

  function Of(a: Allocation, name: string): seq<string> {
    if name in a then a[name] else []
  }

  ghost predicate Distinct(s: seq<string>) {
    forall i, j {:trigger s[i], s[j]} | 0 <= i < j < |s| :: s[i] != s[j]
  }

  /** No address stands in an allocation twice. */
  ghost predicate Once(a: Allocation) {
    && (forall b {:trigger Of(a, b)} :: Distinct(Of(a, b)))
    && (forall b, c, ip {:trigger ip in Of(a, b), ip in Of(a, c)} | ip in Of(a, b) && ip in Of(a, c) :: b == c)
  }

  ghost predicate Placed(a: Allocation, ip: string) {
    exists b :: ip in Of(a, b)
  }

  ghost predicate Extends(a: Allocation, a': Allocation) {
    forall b {:trigger Of(a', b)} :: Of(a, b) <= Of(a', b)
  }

  function Place(a: Allocation, b: string, ip: string): Allocation {
    a[b := Of(a, b) + [ip]]
  }

  lemma PlaceOf(a: Allocation, b: string, ip: string, c: string)
    ensures Of(Place(a, b, ip), c) == if c == b then Of(a, b) + [ip] else Of(a, c)
  {
  }

  lemma PlaceKeys(a: Allocation, b: string, ip: string)
    ensures Place(a, b, ip).Keys == a.Keys + {b}
  {
  }

  lemma PlacePlaced(a: Allocation, b: string, ip: string, x: string)
    ensures Placed(Place(a, b, ip), x) <==> Placed(a, x) || x == ip
  {
    hide Place, Of;
    var a' := Place(a, b, ip);
    PlaceOf(a, b, ip, b);
    assert ip in Of(a', b);
    if Placed(a, x) {
      var c :| x in Of(a, c);
      PlaceOf(a, b, ip, c);
      assert x in Of(a', c);
    }
    if Placed(a', x) {
      var c :| x in Of(a', c);
      PlaceOf(a, b, ip, c);
      assert x == ip || x in Of(a, c);
    }
  }

  lemma PlaceOnce(a: Allocation, b: string, ip: string)
    requires Once(a) && !Placed(a, ip)
    ensures Once(Place(a, b, ip)) && Extends(a, Place(a, b, ip))
  {
    hide Place, Of;
    var a' := Place(a, b, ip);
    forall c ensures Of(a', c) == if c == b then Of(a, b) + [ip] else Of(a, c) {
      PlaceOf(a, b, ip, c);
    }
    assert ip !in Of(a, b);
  }

  // ---- choosing a node -------------------------------------------------------

  /** `best` is a least loaded member of `cs`, "" when there is none, and `others`
      says whether there was a choice. */
  ghost predicate IsBest(a: Allocation, cs: set<string>, best: string, others: bool) {
    && (best == "" <==> cs == {})
    && (best != "" ==> best in cs)
    && (forall c | c in cs :: |Of(a, best)| <= |Of(a, c)|)
    && (others <==> exists c | c in cs :: c != best)
  }

  /** The least loaded node that can host the address, if any, and whether there was a choice. */
  method FindEgressIPAllocation(f: Fleet, ip: string, a: Allocation) returns (best: string, others: bool)
    requires WellFormed(f)
    ensures IsBest(a, Candidates(f, ip), best, others)
  {
    hide WellFormed, CandidatesAmong, IsBest, CanHost, Able;
    best, others := "", false;
    var todo := f.nodes.Keys;
    ghost var seen: set<string> := {};
    NoneSeen(f, ip, a);
    while todo != {}
      invariant seen + todo == f.nodes.Keys && seen !! todo
      invariant IsBest(a, CandidatesAmong(f, ip, seen), best, others)
    {
      var u :| u in todo;
      best, others := ConsiderNode(f, ip, a, u, best, others, seen);
      todo, seen := todo - {u}, seen + {u};
    }
    assert seen == f.nodes.Keys;
  }

  lemma NoneSeen(f: Fleet, ip: string, a: Allocation)
    ensures IsBest(a, CandidatesAmong(f, ip, {}), "", false)
  {
    assert CandidatesAmong(f, ip, {}) == {};
  }

  method ConsiderNode(f: Fleet, ip: string, a: Allocation, u: string, best: string, others: bool,
                      ghost seen: set<string>)
    returns (best': string, others': bool)
    requires WellFormed(f) && u in f.nodes && u !in seen && seen <= f.nodes.Keys
    requires IsBest(a, CandidatesAmong(f, ip, seen), best, others)
    ensures IsBest(a, CandidatesAmong(f, ip, seen + {u}), best', others')
  {
    hide CandidatesAmong, CanHost, Able;
    CandidatesGrow(f, ip, seen, u);
    AbleIs(f, f.nodes[u], ip);
    best', others' := best, others;
    var name := f.store[f.nodes[u]].nodeName;
    if CanHost(f, f.nodes[u], ip) {
      ghost var cs := CandidatesAmong(f, ip, seen + {u});
      assert name in cs && (best != "" ==> best in cs);
      if best != "" {
        others' := true;
        if |Of(a, best)| < |Of(a, name)| {
          return;
        }
      }
      best' := name;
    }
  }

  lemma CandidatesGrow(f: Fleet, ip: string, uids: set<string>, u: string)
    requires WellFormed(f) && u in f.nodes && u !in uids && uids <= f.nodes.Keys
    ensures CandidatesAmong(f, ip, uids + {u}) ==
            CandidatesAmong(f, ip, uids) + (if Able(f, f.nodes[u], ip) then {f.store[f.nodes[u]].nodeName} else {})
    ensures f.store[f.nodes[u]].nodeName !in CandidatesAmong(f, ip, uids)
  {
    hide Able;
  }

  // ---- placing new addresses --------------------------------------------------

  /** Everything that stands in the allocation is marked. */
  ghost predicate Marked(a: Allocation, already: set<string>) {
    forall ip {:trigger Placed(a, ip)} | Placed(a, ip) :: ip in already
  }

  /** `a'` adds to `a` some unmarked addresses of `done`, each once, on a candidate. */
  ghost predicate Grown(f: Fleet, a: Allocation, already: set<string>, done: set<string>, a': Allocation) {
    && Once(a') && Extends(a, a') && a.Keys <= a'.Keys <= a.Keys + Automatic(f)
    && forall b, ip {:trigger ip in Of(a', b)} | ip in Of(a', b) ::
        ip in Of(a, b) || (ip in done - already && b in Candidates(f, ip))
  }

  /** The unmarked addresses of `done` with exactly one candidate. */
  ghost function Forced(f: Fleet, already: set<string>, done: set<string>): set<string> {
    set ip | ip in done && ip !in already && exists b :: Candidates(f, ip) == {b}
  }

  lemma GrowOne(f: Fleet, a: Allocation, already: set<string>, done: set<string>, a': Allocation, b: string, ip: string)
    requires Grown(f, a, already, done, a') && Marked(a, already)
    requires ip !in already && ip !in done && b in Candidates(f, ip)
    ensures Grown(f, a, already, done + {ip}, Place(a', b, ip))
  {
    hide Place, Candidates, Automatic, Of, Once;
    assert forall c {:trigger ip in Of(a', c)} | ip in Of(a', c) :: Placed(a, ip);
    PlaceOnce(a', b, ip);
    CandidatesAreAutomatic(f, ip);
    var a'' := Place(a', b, ip);
    assert a''.Keys == a'.Keys + {b} by { PlaceKeys(a', b, ip); }
    forall c ensures Of(a'', c) == if c == b then Of(a', b) + [ip] else Of(a', c) {
      PlaceOf(a', b, ip, c);
    }
  }

  /** The marked set after the first pass, and that it marks what it places. */
  ghost predicate ForcedPlaced(f: Fleet, already: set<string>, done: set<string>, a': Allocation,
                               already': set<string>) {
    && already' == already + Forced(f, already, done)
    && (forall ip {:trigger Placed(a', ip)} | ip in Forced(f, already, done) :: Placed(a', ip))
    && Marked(a', already')
  }

  lemma ForceOne(f: Fleet, already: set<string>, done: set<string>, a': Allocation, already': set<string>, b: string,
                 ip: string)
    requires ForcedPlaced(f, already, done, a', already') && ip !in already && ip !in done && Candidates(f, ip) == {b}
    ensures ForcedPlaced(f, already, done + {ip}, Place(a', b, ip), already' + {ip})
  {
    hide Place, Candidates, Placed;
    assert Forced(f, already, done + {ip}) == Forced(f, already, done) + {ip};
    forall x ensures Placed(Place(a', b, ip), x) <==> Placed(a', x) || x == ip {
      PlacePlaced(a', b, ip, x);
    }
  }

  lemma SkipOne(f: Fleet, already: set<string>, done: set<string>, ip: string)
    requires ip in already || !exists b :: Candidates(f, ip) == {b}
    ensures Forced(f, already, done + {ip}) == Forced(f, already, done)
  {
    hide Candidates;
  }

  /** The first pass: addresses that only one node can host go there. */
  method AllocateSingles(f: Fleet, a: Allocation, already: set<string>) returns (a': Allocation, already': set<string>)
    requires WellFormed(f) && Once(a) && Marked(a, already)
    ensures Grown(f, a, already, f.egs.Keys, a') && ForcedPlaced(f, already, f.egs.Keys, a', already')
  {
    hide WellFormed, Once, Marked, Grown, ForcedPlaced;
    a', already' := a, already;
    var todo := f.egs.Keys;
    ghost var done: set<string> := {};
    NothingDone(f, a, already);
    while todo != {}
      invariant done + todo == f.egs.Keys && done !! todo
      invariant Grown(f, a, already, done, a') && ForcedPlaced(f, already, done, a', already')
    {
      var ip :| ip in todo;
      a', already' := SinglesStep(f, a, already, done, a', already', ip);
      todo, done := todo - {ip}, done + {ip};
    }
    assert done == f.egs.Keys;
  }

  lemma NothingDone(f: Fleet, a: Allocation, already: set<string>)
    requires Once(a) && Marked(a, already)
    ensures Grown(f, a, already, {}, a) && ForcedPlaced(f, already, {}, a, already)
  {
  }

  method SinglesStep(f: Fleet, ghost a: Allocation, ghost already: set<string>, ghost done: set<string>,
                     a1: Allocation, already1: set<string>, ip: string)
    returns (a': Allocation, already': set<string>)
    requires WellFormed(f) && Marked(a, already) && ip !in done
    requires Grown(f, a, already, done, a1) && ForcedPlaced(f, already, done, a1, already1)
    ensures Grown(f, a, already, done + {ip}, a') && ForcedPlaced(f, already, done + {ip}, a', already')
  {
    hide WellFormed, Marked, Once, Extends, Candidates, Of;
    a', already' := a1, already1;
    if ip in already1 {
      assert ip in already;
      SkipOne(f, already, done, ip);
      return;
    }
    var best, others := FindEgressIPAllocation(f, ip, a1);
    if best != "" && !others {
      assert Candidates(f, ip) == {best};
      GrowOne(f, a, already, done, a1, best, ip);
      ForceOne(f, already, done, a1, already1, best, ip);
      a', already' := Place(a1, best, ip), already1 + {ip};
    } else {
      assert forall b :: Candidates(f, ip) == {b} ==> b in Candidates(f, ip);
      SkipOne(f, already, done, ip);
    }
  }

  /** The last address each node received went to a least loaded of its candidates. */
  ghost predicate Greedy(f: Fleet, a: Allocation, a': Allocation) {
    forall b, c {:trigger Of(a', b), Of(a', c)} |
           |Of(a', b)| > |Of(a, b)| && c in Candidates(f, Of(a', b)[|Of(a', b)| - 1]) ::
      |Of(a', c)| >= |Of(a', b)| - 1
  }

  ghost predicate Complete(f: Fleet, already: set<string>, done: set<string>, a': Allocation) {
    forall ip {:trigger Placed(a', ip)} | ip in done && ip !in already && Candidates(f, ip) != {} :: Placed(a', ip)
  }

  lemma GreedyOne(f: Fleet, a: Allocation, a': Allocation, b: string, ip: string)
    requires Greedy(f, a, a') && Extends(a, a')
    requires forall c | c in Candidates(f, ip) :: |Of(a', b)| <= |Of(a', c)|
    ensures Greedy(f, a, Place(a', b, ip))
  {
    hide Place, Candidates, Of;
    var a'' := Place(a', b, ip);
    forall c ensures Of(a'', c) == if c == b then Of(a', b) + [ip] else Of(a', c) {
      PlaceOf(a', b, ip, c);
    }
    assert forall c {:trigger Of(a'', c)} :: |Of(a'', c)| >= |Of(a', c)|;
  }

  lemma CompleteOne(f: Fleet, already: set<string>, done: set<string>, a': Allocation, b: string, ip: string)
    requires Complete(f, already, done, a')
    ensures Complete(f, already, done + {ip}, Place(a', b, ip))
  {
    hide Place, Candidates, Placed;
    forall x ensures Placed(Place(a', b, ip), x) <==> Placed(a', x) || x == ip {
      PlacePlaced(a', b, ip, x);
    }
  }

  /** The second pass: every other address goes to its least loaded candidate. */
  method AllocateBalanced(f: Fleet, a: Allocation, already: set<string>) returns (a': Allocation)
    requires WellFormed(f) && Once(a) && Marked(a, already)
    ensures Grown(f, a, already, f.egs.Keys, a') && Greedy(f, a, a') && Complete(f, already, f.egs.Keys, a')
  {
    hide WellFormed, Once, Marked, Grown, Complete, ForcedPlaced, Of;
    a' := a;
    var todo := f.egs.Keys;
    ghost var done: set<string> := {};
    NothingDone(f, a, already);
    assert Complete(f, already, {}, a) by { CompleteNone(f, already, a); }
    while todo != {}
      invariant done + todo == f.egs.Keys && done !! todo
      invariant Grown(f, a, already, done, a') && Greedy(f, a, a') && Complete(f, already, done, a')
    {
      var ip :| ip in todo;
      a' := BalancedStep(f, a, already, done, a', ip);
      todo, done := todo - {ip}, done + {ip};
    }
    assert done == f.egs.Keys;
  }

  lemma CompleteNone(f: Fleet, already: set<string>, a: Allocation)
    ensures Complete(f, already, {}, a)
  {
  }

  method BalancedStep(f: Fleet, ghost a: Allocation, already: set<string>, ghost done: set<string>, a1: Allocation,
                      ip: string)
    returns (a': Allocation)
    requires WellFormed(f) && Marked(a, already) && ip !in done
    requires Grown(f, a, already, done, a1) && Greedy(f, a, a1) && Complete(f, already, done, a1)
    ensures Grown(f, a, already, done + {ip}, a') && Greedy(f, a, a') && Complete(f, already, done + {ip}, a')
  {
    hide WellFormed, Marked, Once, Greedy, Candidates, Placed, Of;
    a' := a1;
    if ip in already {
      return;
    }
    var best, others := FindEgressIPAllocation(f, ip, a1);
    if best != "" {
      GrowOne(f, a, already, done, a1, best, ip);
      GreedyOne(f, a, a1, best, ip);
      CompleteOne(f, already, done, a1, best, ip);
      a' := Place(a1, best, ip);
    }
  }

  /** Both passes: every unmarked address that some node can host is placed once,
      on a node that can host it, and greedily. */
  method AllocateNewEgressIPs(f: Fleet, a: Allocation, already: set<string>) returns (a': Allocation)
    requires WellFormed(f) && Once(a) && Marked(a, already)
    ensures Grown(f, a, already, f.egs.Keys, a') && Greedy(f, a, a') && Complete(f, already, f.egs.Keys, a')
  {
    hide WellFormed, Once, Marked, Grown, Complete, ForcedPlaced, Greedy;
    var a1, already1 := AllocateSingles(f, a, already);
    GrownIsOnce(f, a, already, a1, already1);
    a' := AllocateBalanced(f, a1, already1);
    PassesCompose(f, a, already, a1, already1, a');
    PassesAreGreedy(f, a, already, a1, already1, a');
  }

  lemma GrownIsOnce(f: Fleet, a: Allocation, already: set<string>, a1: Allocation, already1: set<string>)
    requires Grown(f, a, already, f.egs.Keys, a1) && ForcedPlaced(f, already, f.egs.Keys, a1, already1)
    ensures Once(a1) && Marked(a1, already1)
  {
    hide Once, Marked;
  }

  lemma PassesCompose(f: Fleet, a: Allocation, already: set<string>, a1: Allocation, already1: set<string>,
                      a2: Allocation)
    requires Grown(f, a, already, f.egs.Keys, a1) && ForcedPlaced(f, already, f.egs.Keys, a1, already1)
    requires Grown(f, a1, already1, f.egs.Keys, a2) && Complete(f, already1, f.egs.Keys, a2)
    ensures Grown(f, a, already, f.egs.Keys, a2) && Complete(f, already, f.egs.Keys, a2)
  {
    hide Once, Marked, Candidates, Automatic, Of;
    assert forall b {:trigger Of(a2, b)} :: Of(a, b) <= Of(a1, b) <= Of(a2, b);
    forall ip | Placed(a1, ip) ensures Placed(a2, ip) {
      var b :| ip in Of(a1, b);
      assert Of(a1, b) <= Of(a2, b);
      assert ip in Of(a2, b);
    }
  }

  lemma PassesAreGreedy(f: Fleet, a: Allocation, already: set<string>, a1: Allocation, already1: set<string>,
                        a2: Allocation)
    requires Grown(f, a, already, f.egs.Keys, a1) && ForcedPlaced(f, already, f.egs.Keys, a1, already1)
    requires Grown(f, a1, already1, f.egs.Keys, a2) && Greedy(f, a1, a2)
    requires Marked(a, already)
    ensures Greedy(f, a, a2)
  {
    hide Once, Candidates, Automatic, Of;
    forall b, c | |Of(a2, b)| > |Of(a, b)| && c in Candidates(f, Of(a2, b)[|Of(a2, b)| - 1])
      ensures |Of(a2, c)| >= |Of(a2, b)| - 1
    {
      assert Of(a, b) <= Of(a1, b) <= Of(a2, b);
      var ip := Of(a2, b)[|Of(a2, b)| - 1];
      if |Of(a2, b)| == |Of(a1, b)| {
        LastIsForced(f, a, already, a1, already1, b);
        assert Of(a2, b) == Of(a1, b);
        assert c == b;
      }
    }
  }

  /** What the first pass appends to a node only that node can host. */
  lemma LastIsForced(f: Fleet, a: Allocation, already: set<string>, a1: Allocation, already1: set<string>, b: string)
    requires Grown(f, a, already, f.egs.Keys, a1) && ForcedPlaced(f, already, f.egs.Keys, a1, already1)
    requires Marked(a, already) && |Of(a1, b)| > |Of(a, b)|
    ensures Candidates(f, Of(a1, b)[|Of(a1, b)| - 1]) == {b}
  {
    hide Candidates, Automatic, Of;
    var ip := Of(a1, b)[|Of(a1, b)| - 1];
    assert ip in Of(a1, b) && Placed(a1, ip);
    assert ip !in Of(a, b) by {
      assert Of(a, b) <= Of(a1, b) && Distinct(Of(a1, b));
    }
    assert ip in f.egs.Keys - already && b in Candidates(f, ip);
    assert ip in Forced(f, already, f.egs.Keys);
  }

  /** A fresh allocation of addresses that share their candidates loads the candidates evenly. */
  lemma EvenLoads(f: Fleet, already: set<string>, a: Allocation, cs: set<string>, b: string, c: string)
    requires Grown(f, map[], already, f.egs.Keys, a) && Greedy(f, map[], a)
    requires forall ip | ip in f.egs && ip !in already :: Candidates(f, ip) == cs
    requires b in cs && c in cs
    ensures |Of(a, b)| <= |Of(a, c)| + 1
  {
    hide Candidates;
    if Of(a, b) != [] {
      var ip := Of(a, b)[|Of(a, b)| - 1];
      assert ip in Of(a, b) && ip in f.egs.Keys - already;
      assert |Of(a, c)| >= |Of(a, b)| - 1;
    }
  }

  // ---- keeping what is there ----------------------------------------------------

  ghost function EligibleIPs(f: Fleet): set<string> {
    set ip | ip in f.egs && Eligible(f, ip)
  }

  method MakeEmptyAllocation(f: Fleet) returns (a: Allocation, already: set<string>)
    requires WellFormed(f)
    ensures a == map[] && already == f.egs.Keys - EligibleIPs(f)
  {
    a, already := map[], {};
    var todo := f.egs.Keys;
    while todo != {}
      invariant todo <= f.egs.Keys && already == f.egs.Keys - EligibleIPs(f) - todo
    {
      var ip :| ip in todo;
      var eg := f.egs[ip];
      if |eg.namespaces| == 0 {
        already := already + {ip};
      } else if |eg.nodes| > 1 || |eg.namespaces| > 1 {
        already := already + {ip};
      } else if |eg.namespaces| == 1 && |f.spaces[eg.namespaces[0]].requestedIPs| > 1 {
        already := already + {ip};
      }
      todo := todo - {ip};
    }
  }

  /** The node that hosts an assigned address. */
  function HostOf(f: Fleet, ip: string): NodeId
    requires Assigned(f, ip) && |f.egs[ip].nodes| == 1
  {
    f.egs[ip].nodes[0]
  }

  ghost predicate Carries(f: Fleet, ip: string) {
    Assigned(f, ip) && |f.egs[ip].nodes| == 1 && Able(f, HostOf(f, ip), ip)
  }

  /** The address is assigned, unmarked and among `done`. */
  ghost function Existing(f: Fleet, already: set<string>, done: set<string>): set<string> {
    set ip | ip in done && ip !in already && Assigned(f, ip)
  }

  /** Exactly the existing addresses that their host can still carry stand, each on its host. */
  ghost predicate Kept(f: Fleet, already: set<string>, done: set<string>, a: Allocation) {
    && Once(a) && a.Keys == Automatic(f)
    && (forall b, ip {:trigger ip in Of(a, b)} | ip in Of(a, b) ::
          ip in Existing(f, already, done) && Carries(f, ip) && b == f.store[HostOf(f, ip)].nodeName)
    && (forall ip {:trigger Carries(f, ip)} | ip in Existing(f, already, done) && Carries(f, ip) ::
          ip in Of(a, f.store[HostOf(f, ip)].nodeName))
  }

  ghost predicate SomeTakenOff(f: Fleet, already: set<string>, done: set<string>) {
    exists ip {:trigger Carries(f, ip)} :: ip in Existing(f, already, done) && !Carries(f, ip)
  }

  /** An empty list for every node with CIDRs. */
  method EmptyLists(f: Fleet) returns (a: Allocation)
    requires WellFormed(f)
    ensures a.Keys == Automatic(f) && forall b :: Of(a, b) == []
  {
    a := map[];
    var todo := f.nodes.Keys;
    ghost var done: set<string> := {};
    while todo != {}
      invariant done + todo == f.nodes.Keys && done !! todo
      invariant forall b | b in a :: a[b] == []
      invariant a.Keys == set u | u in done && f.store[f.nodes[u]].requestedCIDRs != {} :: f.store[f.nodes[u]].nodeName
    {
      var u :| u in todo;
      todo, done := todo - {u}, done + {u};
      if f.store[f.nodes[u]].requestedCIDRs != {} {
        a := a[f.store[f.nodes[u]].nodeName := []];
      }
    }
    assert done == f.nodes.Keys;
  }

  /** An assigned address stays with its node while the node is online and covers it,
      and is otherwise taken off without going anywhere else. */
  method AllocateExistingEgressIPs(f: Fleet, already: set<string>)
    returns (a: Allocation, already': set<string>, removed: bool)
    requires WellFormed(f)
    ensures Kept(f, already, f.egs.Keys, a)
    ensures already' == already + Existing(f, already, f.egs.Keys)
    ensures removed <==> SomeTakenOff(f, already, f.egs.Keys)
  {
    hide WellFormed, Kept, Existing, SomeTakenOff, Automatic;
    a := EmptyLists(f);
    already', removed := already, false;
    var todo := f.egs.Keys;
    ghost var done: set<string> := {};
    KeptNone(f, already, a);
    while todo != {}
      invariant done + todo == f.egs.Keys && done !! todo
      invariant Kept(f, already, done, a)
      invariant already' == already + Existing(f, already, done)
      invariant removed <==> SomeTakenOff(f, already, done)
    {
      var ip :| ip in todo;
      a, already', removed := ExistingStep(f, already, done, a, already', removed, ip);
      todo, done := todo - {ip}, done + {ip};
    }
    assert done == f.egs.Keys;
  }

  lemma KeptNone(f: Fleet, already: set<string>, a: Allocation)
    requires a.Keys == Automatic(f) && forall b :: Of(a, b) == []
    ensures Kept(f, already, {}, a) && Existing(f, already, {}) == {} && !SomeTakenOff(f, already, {})
  {
  }

  method ExistingStep(f: Fleet, ghost already: set<string>, ghost done: set<string>, a: Allocation,
                      already1: set<string>, removed: bool, ip: string)
    returns (a': Allocation, already': set<string>, removed': bool)
    requires WellFormed(f) && ip in f.egs && ip !in done
    requires Kept(f, already, done, a) && already1 == already + Existing(f, already, done)
    requires removed <==> SomeTakenOff(f, already, done)
    ensures Kept(f, already, done + {ip}, a') && already' == already + Existing(f, already, done + {ip})
    ensures removed' <==> SomeTakenOff(f, already, done + {ip})
  {
    hide Kept, CanHost, Able, Once, Automatic;
    a', already', removed' := a, already1, removed;
    if f.egs[ip].assignedNodeIP == "" || ip in already1 {
      assert Existing(f, already, done + {ip}) == Existing(f, already, done);
      KeepSame(f, already, done, a, ip);
      return;
    }
    assert Existing(f, already, done + {ip}) == Existing(f, already, done) + {ip};
    var n := f.egs[ip].nodes[0];
    AbleIs(f, n, ip);
    if CanHost(f, n, ip) {
      KeepOne(f, already, done, a, ip);
      a' := Place(a, f.store[n].nodeName, ip);
    } else {
      KeepSame(f, already, done, a, ip);
      removed' := true;
    }
    already' := already1 + {ip};
    assert Carries(f, ip) <==> CanHost(f, n, ip);
  }

  lemma KeepSame(f: Fleet, already: set<string>, done: set<string>, a: Allocation, ip: string)
    requires Kept(f, already, done, a) && (ip in Existing(f, already, done + {ip}) ==> !Carries(f, ip))
    ensures Kept(f, already, done + {ip}, a)
  {
    hide Once, Carries, Automatic, Of;
  }

  lemma KeepOne(f: Fleet, already: set<string>, done: set<string>, a: Allocation, ip: string)
    requires WellFormed(f) && Kept(f, already, done, a) && ip !in done
    requires ip in Existing(f, already, done + {ip}) && Carries(f, ip)
    ensures Kept(f, already, done + {ip}, Place(a, f.store[HostOf(f, ip)].nodeName, ip))
  {
    hide Once, Place, Of, Able, Automatic;
    var b := f.store[HostOf(f, ip)].nodeName;
    var a' := Place(a, b, ip);
    PlaceOnce(a, b, ip);
    PlaceKeys(a, b, ip);
    HostIsCandidate(f, ip);
    CandidatesAreAutomatic(f, ip);
    forall c ensures Of(a', c) == if c == b then Of(a, b) + [ip] else Of(a, c) {
      PlaceOf(a, b, ip, c);
    }
  }

  lemma HostIsCandidate(f: Fleet, ip: string)
    requires WellFormed(f) && Carries(f, ip)
    ensures f.store[HostOf(f, ip)].nodeName in Candidates(f, ip)
  {
    assert f.egs[ip].nodes[0] in f.nodes.Values;
    var u :| u in f.nodes && f.nodes[u] == HostOf(f, ip);
    assert f.store[f.nodes[u]].nodeName in CandidatesAmong(f, ip, f.nodes.Keys);
  }

  // ---- the whole reallocation ------------------------------------------------

  /** Every placed address is eligible, on a node that can host it, and not moved. */
  ghost predicate Legal(f: Fleet, a: Allocation) {
    forall b, ip {:trigger ip in Of(a, b)} | ip in Of(a, b) ::
      && Eligible(f, ip) && b in Candidates(f, ip)
      && (Assigned(f, ip) ==>
            |f.egs[ip].nodes| == 1 && HostOf(f, ip) in f.store && b == f.store[HostOf(f, ip)].nodeName)
  }

  /** What should happen to an eligible address that is not set aside: an assigned
      one stays just when its host can carry it, any other is placed just when some node can host it. */
  ghost predicate Served(f: Fleet, a: Allocation, ip: string) {
    Placed(a, ip) <==> if Assigned(f, ip) then Carries(f, ip) else Candidates(f, ip) != {}
  }

  ghost predicate Reallocated(f: Fleet, aside: set<string>, a: Allocation) {
    && Once(a) && Legal(f, a) && a.Keys == Automatic(f)
    && (forall ip {:trigger Served(f, a, ip)} | ip in EligibleIPs(f) - aside :: Served(f, a, ip))
    && (forall ip {:trigger Placed(a, ip)} | ip in aside :: !Placed(a, ip))
  }

  /** The incremental allocation that leaves the addresses `aside` unplaced. */
  method Incremental(f: Fleet, aside: set<string>) returns (a: Allocation, removed: bool)
    requires WellFormed(f) && aside <= EligibleIPs(f)
    ensures Reallocated(f, aside, a)
    ensures removed <==> exists ip {:trigger Carries(f, ip)} ::
        ip in EligibleIPs(f) - aside && Assigned(f, ip) && !Carries(f, ip)
  {
    hide WellFormed, EligibleIPs, Kept, Grown, Complete, Greedy, Once, Marked, Carries, Reallocated;
    var a0, already := MakeEmptyAllocation(f);
    already := already + aside;
    var kept, already1;
    kept, already1, removed := AllocateExistingEgressIPs(f, already);
    KeptIsMarked(f, already, kept, already1);
    a := AllocateNewEgressIPs(f, kept, already1);
    IncrementalIsReallocated(f, aside, already, kept, already1, a);
  }

  lemma KeptIsMarked(f: Fleet, already: set<string>, kept: Allocation, already1: set<string>)
    requires Kept(f, already, f.egs.Keys, kept) && already1 == already + Existing(f, already, f.egs.Keys)
    ensures Once(kept) && Marked(kept, already1)
  {
    hide Once, Carries, Of, Automatic;
  }

  lemma IncrementalIsReallocated(f: Fleet, aside: set<string>, already: set<string>, kept: Allocation,
                                 already1: set<string>, a: Allocation)
    requires WellFormed(f) && aside <= EligibleIPs(f) && already == f.egs.Keys - EligibleIPs(f) + aside
    requires Kept(f, already, f.egs.Keys, kept) && already1 == already + Existing(f, already, f.egs.Keys)
    requires Grown(f, kept, already1, f.egs.Keys, a) && Complete(f, already1, f.egs.Keys, a)
    ensures Reallocated(f, aside, a)
  {
    hide Once, Of, Carries, Candidates, Eligible, WellFormed, Automatic;
    assert Legal(f, a) by { IncrementalIsLegal(f, aside, already, kept, already1, a); }
    forall ip | ip in EligibleIPs(f) - aside ensures Served(f, a, ip) {
      if Assigned(f, ip) {
        if Carries(f, ip) {
          CarriedIsPlaced(f, already, kept, a, ip, already1);
        }
        assert forall b {:trigger ip in Of(a, b)} | ip in Of(a, b) :: ip in Of(kept, b);
      } else if Placed(a, ip) {
        var b :| ip in Of(a, b);
        assert b in Candidates(f, ip);
      }
    }
    assert forall ip, b {:trigger ip in Of(a, b)} | ip in Of(a, b) :: ip !in aside;
  }

  lemma CarriedIsPlaced(f: Fleet, already: set<string>, kept: Allocation, a: Allocation, ip: string,
                        already1: set<string>)
    requires Kept(f, already, f.egs.Keys, kept) && Grown(f, kept, already1, f.egs.Keys, a)
    requires ip in Existing(f, already, f.egs.Keys) && Carries(f, ip)
    ensures Placed(a, ip)
  {
    hide Once, Of, Automatic;
    var b := f.store[HostOf(f, ip)].nodeName;
    assert ip in Of(kept, b) && Of(kept, b) <= Of(a, b);
    assert ip in Of(a, b);
  }

  lemma IncrementalIsLegal(f: Fleet, aside: set<string>, already: set<string>, kept: Allocation, already1: set<string>,
                           a: Allocation)
    requires WellFormed(f) && already == f.egs.Keys - EligibleIPs(f) + aside
    requires Kept(f, already, f.egs.Keys, kept) && already1 == already + Existing(f, already, f.egs.Keys)
    requires Grown(f, kept, already1, f.egs.Keys, a)
    ensures Legal(f, a)
  {
    hide Once, Of, Candidates, Eligible, WellFormed, Automatic;
    forall b, ip | ip in Of(a, b)
      ensures Eligible(f, ip) && b in Candidates(f, ip)
      ensures Assigned(f, ip) ==>
                |f.egs[ip].nodes| == 1 && HostOf(f, ip) in f.store && b == f.store[HostOf(f, ip)].nodeName
    {
      if ip in Of(kept, b) {
        HostIsCandidate(f, ip);
      }
      assert ip in EligibleIPs(f);
    }
  }

  /** The nodes that hold less than half of what a fresh allocation gives them. */
  ghost function Lagging(first: Allocation, full: Allocation): set<string> {
    set b | b in full && |Of(first, b)| < |full[b]| / 2
  }

  ghost function AllOn(full: Allocation, bs: set<string>): set<string> {
    set b, ip | b in bs && b in full && ip in full[b] :: ip
  }

  lemma LaggingMeans(first: Allocation, full: Allocation)
    ensures Lagging(first, full) != {} <==>
              exists b {:trigger Of(full, b)} :: b in full && |Of(first, b)| < |Of(full, b)| / 2
    ensures forall ip {:trigger ip in AllOn(full, Lagging(first, full))} ::
              ip in AllOn(full, Lagging(first, full)) <==>
              exists b {:trigger Of(full, b)} :: b in full && |Of(first, b)| < |Of(full, b)| / 2 && ip in Of(full, b)
  {
    if Lagging(first, full) != {} {
      var b :| b in Lagging(first, full);
      assert Of(full, b) == full[b];
    }
    if b :| b in full && |Of(first, b)| < |Of(full, b)| / 2 {
      assert b in Lagging(first, full);
    }
    forall ip ensures ip in AllOn(full, Lagging(first, full)) <==>
                        exists b {:trigger Of(full, b)} :: b in full && |Of(first, b)| < |Of(full, b)| / 2
                           && ip in Of(full, b)
    {
      if ip in AllOn(full, Lagging(first, full)) {
        var b :| b in Lagging(first, full) && b in full && ip in full[b];
        assert Of(full, b) == full[b];
      }
    }
  }

  /** Nothing has to be taken off. */
  ghost predicate AllCarried(f: Fleet) {
    forall ip {:trigger Carries(f, ip)} | ip in EligibleIPs(f) && Assigned(f, ip) :: Carries(f, ip)
  }

  /** `full` is what would be placed if nothing were hosted yet. */
  ghost predicate Fresh(f: Fleet, full: Allocation) {
    Grown(f, map[], f.egs.Keys - EligibleIPs(f), f.egs.Keys, full) && Greedy(f, map[], full)
    && Complete(f, f.egs.Keys - EligibleIPs(f), f.egs.Keys, full)
  }

  /** Keeps what can be kept and places the rest.  When nothing had to be taken off
      and some node lags, the addresses that a fresh allocation gives to the
      lagging nodes are set aside, to be placed by the next call. */
  method Reallocate(f: Fleet) returns (a: Allocation, again: bool, ghost first: Allocation, ghost full: Allocation)
    requires WellFormed(f)
    ensures Reallocated(f, {}, first)
    ensures AllCarried(f) ==> Fresh(f, full)
    ensures again <==> AllCarried(f) &&
                       exists b {:trigger Of(full, b)} :: b in full && |Of(first, b)| < |Of(full, b)| / 2
    ensures forall ip {:trigger ip in AllOn(full, Lagging(first, full))} ::
              ip in AllOn(full, Lagging(first, full)) <==>
              exists b {:trigger Of(full, b)} :: b in full && |Of(first, b)| < |Of(full, b)| / 2 && ip in Of(full, b)
    ensures if again then Reallocated(f, AllOn(full, Lagging(first, full)), a) else a == first
    ensures Once(a) && Legal(f, a) && a.Keys == Automatic(f) && (!again ==> Reallocated(f, {}, a))
  {
    hide WellFormed, EligibleIPs, Reallocated, Grown, Greedy, Complete, Once, Legal, Automatic, Marked, Carries;
    var removed;
    a, removed := Incremental(f, {});
    first, again := a, false;
    ReallocatedIsLegal(f, {}, a);
    if removed {
      full := map[];
      LaggingMeans(first, full);
      return;
    }
    var a0, already := MakeEmptyAllocation(f);
    EmptyIsOnce(already);
    var anew := AllocateNewEgressIPs(f, a0, already);
    full := anew;
    LaggingMeans(first, full);
    var lagging := FindLagging(a, anew);
    if lagging != {} {
      var aside := Collect(anew, lagging);
      AllOnIsEligible(f, anew, lagging);
      a, removed := Incremental(f, aside);
      ReallocatedIsLegal(f, aside, a);
      again := true;
    }
  }

  lemma ReallocatedIsLegal(f: Fleet, aside: set<string>, a: Allocation)
    requires Reallocated(f, aside, a)
    ensures Once(a) && Legal(f, a) && a.Keys == Automatic(f)
  {
    hide Once, Legal, Automatic;
  }

  lemma EmptyIsOnce(already: set<string>)
    ensures Once(map[]) && Marked(map[], already)
  {
  }

  method FindLagging(a: Allocation, full: Allocation) returns (lagging: set<string>)
    ensures lagging == Lagging(a, full)
  {
    lagging := {};
    var todo := full.Keys;
    while todo != {}
      invariant todo <= full.Keys && lagging == Lagging(a, full) - todo
    {
      var b :| b in todo;
      if |Of(a, b)| < |full[b]| / 2 {
        lagging := lagging + {b};
      }
      todo := todo - {b};
    }
  }

  method Collect(full: Allocation, bs: set<string>) returns (ips: set<string>)
    requires bs <= full.Keys
    ensures ips == AllOn(full, bs)
  {
    ips := {};
    var todo := bs;
    while todo != {}
      invariant todo <= bs && ips == AllOn(full, bs - todo)
    {
      var b :| b in todo;
      todo := todo - {b};
      ips := ips + ToSet(full[b]);
      assert bs - todo == (bs - (todo + {b})) + {b};
    }
    assert bs - {} == bs;
  }

  lemma AllOnIsEligible(f: Fleet, full: Allocation, bs: set<string>)
    requires Fresh(f, full)
    ensures AllOn(full, bs) <= EligibleIPs(f)
  {
    hide Once, EligibleIPs, Candidates, Automatic;
    forall b, ip | b in bs && b in full && ip in full[b] ensures ip in EligibleIPs(f) {
      assert ip in Of(full, b);
    }
  }

  // ---- applying an allocation ------------------------------------------------

  /** Lists and requests agree, and an eligible address without an assignment has no host. */
  ghost predicate Consistent(f: Fleet) {
    && (forall u, ip {:trigger ip in f.store[f.nodes[u]].requestedIPs} | u in f.nodes && f.nodes[u] in f.store ::
          ip in f.store[f.nodes[u]].requestedIPs <==> ip in f.egs && f.nodes[u] in f.egs[ip].nodes)
    && (forall ip {:trigger Eligible(f, ip)} | Eligible(f, ip) && !Assigned(f, ip) :: f.egs[ip].nodes == [])
  }

  /** What a node requests once the allocation has been written to the nodes named in `applied`. */
  ghost function RequestAfter(f: Fleet, a: Allocation, applied: set<string>, n: NodeId): set<string>
    requires n in f.store
  {
    var name := f.store[n].nodeName;
    if name in applied && name in a then ToSet(a[name]) else f.store[n].requestedIPs
  }

  ghost function HostsAfter(f: Fleet, a: Allocation, applied: set<string>, ip: string): set<string> {
    set u | u in f.nodes && f.nodes[u] in f.store && ip in RequestAfter(f, a, applied, f.nodes[u])
  }

  /** However far the allocation has been written to the nodes, and in whatever
      order, no address has gained a second host: it keeps its hosts or loses
      some, or it had none and now has one. */
  lemma PartialApplicationIsSafe(f: Fleet, a: Allocation, applied: set<string>, ip: string)
    requires WellFormed(f) && Consistent(f) && Once(a) && Legal(f, a)
    ensures Safe(f, a, applied, ip)
  {
    hide WellFormed, Once, Eligible, Candidates;
    if u :| u in HostsAfter(f, a, applied, ip) && ip !in f.store[f.nodes[u]].requestedIPs {
      GainedIsFree(f, a, ip, u);
      forall w | w in HostsAfter(f, a, applied, ip) ensures w == u {
        assert f.nodes[w] !in f.egs[ip].nodes;
        assert ip in Of(a, f.store[f.nodes[w]].nodeName);
        OneTaker(f, a, ip, u, w);
      }
      assert HostsAfter(f, a, applied, ip) == {u};
    }
  }

  lemma OneTaker(f: Fleet, a: Allocation, ip: string, u: string, w: string)
    requires WellFormed(f) && Once(a) && u in f.nodes && w in f.nodes
    requires ip in Of(a, f.store[f.nodes[u]].nodeName) && ip in Of(a, f.store[f.nodes[w]].nodeName)
    ensures u == w
  {
    hide Of;
  }

  /** An assigned address stands only on a node that requests it. */
  lemma AssignedIsRequested(f: Fleet, a: Allocation, ip: string, u: string)
    requires WellFormed(f) && Consistent(f) && Legal(f, a) && u in f.nodes && ip in Of(a, f.store[f.nodes[u]].nodeName)
    ensures Assigned(f, ip) ==> ip in f.store[f.nodes[u]].requestedIPs
  {
    hide Candidates, Of, Eligible;
    if Assigned(f, ip) {
      assert f.egs[ip].nodes[0] in f.nodes.Values;
      var w :| w in f.nodes && f.nodes[w] == HostOf(f, ip);
      assert w == u;
      assert f.nodes[u] in f.egs[ip].nodes;
    }
  }

  /** An address written to a node that did not request it had no host. */
  lemma GainedIsFree(f: Fleet, a: Allocation, ip: string, u: string)
    requires WellFormed(f) && Consistent(f) && Legal(f, a) && u in f.nodes
    requires ip in Of(a, f.store[f.nodes[u]].nodeName) && ip !in f.store[f.nodes[u]].requestedIPs
    ensures ip in f.egs && f.egs[ip].nodes == []
  {
    hide Candidates, Of;
    assert Eligible(f, ip);
    AssignedIsRequested(f, a, ip, u);
  }

  /** What writing the allocation to the nodes `applied` may do to the hosts of an address. */
  ghost predicate Safe(f: Fleet, a: Allocation, applied: set<string>, ip: string) {
    HostsAfter(f, a, applied, ip) <= HostsAfter(f, a, {}, ip)
    || (HostsAfter(f, a, {}, ip) == {} && |HostsAfter(f, a, applied, ip)| == 1)
  }

  /** The tables of a stable tracker are well formed and consistent. */
  lemma StableFleet(f: Fleet, byIP: map<string, NodeId>, next: NodeId, withCIDRs: int, s: State)
    requires Links(f.egs, f.store, f.spaces, {}, {}, s) && Stable(s)
    requires NodesRegistered(f.nodes, byIP, f.store, s.nodeIPs, next, withCIDRs)
    requires UniqueNames(f.nodes, f.store)
    ensures WellFormed(f) && Consistent(f)
  {
    hide Links, Stable, NodesRegistered, Eligible;
    forall ip | ip in f.egs
      ensures f.egs[ip].assignedNodeIP != "" ==> |f.egs[ip].nodes| == 1
      ensures forall i {:trigger f.egs[ip].nodes[i]} | 0 <= i < |f.egs[ip].nodes| ::
          f.egs[ip].nodes[i] in f.nodes.Values
      ensures forall i {:trigger f.egs[ip].namespaces[i]} | 0 <= i < |f.egs[ip].namespaces| ::
          f.egs[ip].namespaces[i] in f.spaces
    {
      ListedAreKnown(f, byIP, next, withCIDRs, s, ip);
    }
    forall ip | Eligible(f, ip) && !Assigned(f, ip) ensures ip in f.egs && f.egs[ip].nodes == [] {
      EligibleIsFree(f, s, ip);
    }
    forall u, ip | u in f.nodes && f.nodes[u] in f.store
      ensures ip in f.store[f.nodes[u]].requestedIPs <==> ip in f.egs && f.nodes[u] in f.egs[ip].nodes
    {
      RequestedIsListed(f, byIP, next, withCIDRs, s, f.nodes[u], ip);
    }
  }

  lemma RequestedIsListed(f: Fleet, byIP: map<string, NodeId>, next: NodeId, withCIDRs: int, s: State, n: NodeId,
                          ip: string)
    requires Links(f.egs, f.store, f.spaces, {}, {}, s) && Stable(s)
    requires NodesRegistered(f.nodes, byIP, f.store, s.nodeIPs, next, withCIDRs) && n in f.store
    ensures ip in f.store[n].requestedIPs <==> ip in f.egs && n in f.egs[ip].nodes
  {
    hide AllRouted, Holds, NoStrayRoutes, WithCIDRs, Ordered, LinkedNodes, LinkedSpaces, Settled;
    assert f.store[n].requestedIPs == s.nodeIPs[n];
    if ip in f.egs {
      assert Shows(f.egs[ip], s.hosts[ip], s.users[ip], s.assignee[ip]);
      assert n in s.hosts[ip] <==> n in f.egs[ip].nodes;
    }
  }

  ghost predicate UniqueNames(nodes: map<string, NodeId>, store: NodeTable) {
    && (forall u {:trigger nodes[u]} | u in nodes :: nodes[u] in store && store[nodes[u]].nodeName != "")
    && (forall u, w {:trigger nodes[u], nodes[w]} | u in nodes && w in nodes && u != w ::
          store[nodes[u]].nodeName != store[nodes[w]].nodeName)
  }

  lemma ListedAreKnown(f: Fleet, byIP: map<string, NodeId>, next: NodeId, withCIDRs: int, s: State, ip: string)
    requires Links(f.egs, f.store, f.spaces, {}, {}, s) && Stable(s)
    requires NodesRegistered(f.nodes, byIP, f.store, s.nodeIPs, next, withCIDRs) && ip in f.egs
    ensures f.egs[ip].assignedNodeIP != "" ==> |f.egs[ip].nodes| == 1
    ensures forall i {:trigger f.egs[ip].nodes[i]} | 0 <= i < |f.egs[ip].nodes| :: f.egs[ip].nodes[i] in f.nodes.Values
    ensures forall i {:trigger f.egs[ip].namespaces[i]} | 0 <= i < |f.egs[ip].namespaces| ::
        f.egs[ip].namespaces[i] in f.spaces
  {
    hide AllRouted, Holds, NoStrayRoutes, WithCIDRs, Apart, Named, Settled;
    var eg := f.egs[ip];
    assert Shows(eg, s.hosts[ip], s.users[ip], s.assignee[ip]);
    assert InOrder(s, ip);
    ListsCard(eg.nodes, s.hosts[ip]);
    forall i | 0 <= i < |eg.nodes| ensures eg.nodes[i] in f.nodes.Values {
      assert eg.nodes[i] in s.hosts[ip];
      assert ip in f.store[eg.nodes[i]].requestedIPs;
    }
    forall i | 0 <= i < |eg.namespaces| ensures eg.namespaces[i] in f.spaces {
      assert eg.namespaces[i] in s.users[ip];
    }
  }

  lemma EligibleIsFree(f: Fleet, s: State, ip: string)
    requires Links(f.egs, f.store, f.spaces, {}, {}, s) && Stable(s)
    requires Eligible(f, ip) && !Assigned(f, ip)
    ensures ip in f.egs && f.egs[ip].nodes == []
  {
    hide AllRouted, Holds, NoStrayRoutes, Apart, LinkedNodes, Named;
    var eg := f.egs[ip];
    assert Shows(eg, s.hosts[ip], s.users[ip], s.assignee[ip]);
    assert InOrder(s, ip);
    ListsCard(eg.nodes, s.hosts[ip]);
    ListsCard(eg.namespaces, s.users[ip]);
    var v := eg.namespaces[0];
    assert v in s.users[ip] && ip in s.spaceIPs[v];
    assert s.spaceIPs[v] == ToSet(s.requested[v]);
    assert s.requested[v] == [ip];
    assert forall o | o in s.users[ip] :: o == v;
  }
}
