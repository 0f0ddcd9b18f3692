/** The liveness monitor of egress nodes: it compares packet counters with a
    baseline, and reports a node offline or back online. */
module VxlanMonitor {
  import opened Wrappers

  const MAX_RETRIES := 2

  /** Packets received from and sent to a node. */
  datatype Look = Look(received: nat, sent: nat)

  /** `base` is what the counters are compared with. */
  datatype Node = Node(offline: bool, base: Look, retries: nat)

  datatype Report = WentOffline | CameOnline

  const NewNode := Node(false, Look(0, 0), 0)

  /** More was sent and nothing was received since the baseline. */
  predicate Suspicious(base: Look, l: Look) {
    l.sent > base.sent && l.received == base.received
  }

  /** What one look does to a node, and what it reports. */
  function Step(n: Node, l: Look): (Node, Option<Report>) {
    if n.offline then
      if l.received > n.base.received then (Node(false, l, n.retries), Some(CameOnline))
      else (Node(true, l, n.retries), None)
    else if Suspicious(n.base, l) then
      if n.retries + 1 > MAX_RETRIES then (Node(true, l, 0), Some(WentOffline))
      else (n.(retries := n.retries + 1), None)
    else (Node(false, l, 0), None)
  }

  /** A node after a sequence of looks, and everything reported about it. */
  function After(looks: seq<Look>): Node {
    if looks == [] then NewNode else Step(After(looks[..|looks| - 1]), looks[|looks| - 1]).0
  }

  function Reports(looks: seq<Look>): seq<Report> {
    if looks == [] then []
    else
      var init := looks[..|looks| - 1];
      match Step(After(init), looks[|looks| - 1]).1
      case None => Reports(init)
      case Some(r) => Reports(init) + [r]
  }

  /** The last look reports the node offline. */
  predicate ReportsOffline(looks: seq<Look>) {
    looks != [] && Reports(looks) == Reports(looks[..|looks| - 1]) + [WentOffline]
  }

  /** While retrying, the baseline is held and each look since was suspicious. */
  lemma {:induction false} RetriesAreSuspicious(looks: seq<Look>)
    ensures var n := After(looks); var m := |looks| - n.retries;
            && n.retries <= MAX_RETRIES && n.retries <= |looks| && (n.retries > 0 ==> !n.offline)
            && (n.retries > 0 ==> After(looks[..m]) == n.(retries := 0))
            && forall i | m <= i < |looks| :: Suspicious(n.base, looks[i])
    decreases |looks|
  {
    if looks != [] {
      var init := looks[..|looks| - 1];
      RetriesAreSuspicious(init);
      var n, n' := After(init), After(looks);
      if n'.retries > 0 {
        var m := |init| - n.retries;
        assert |looks| - n'.retries == m;
        assert init[..m] == looks[..m];
        if n.retries == 0 { assert init[..m] == init; }
        assert forall i | m <= i < |init| :: looks[i] == init[i];
      }
    }
  }

  /** The counters are compared with the last look that was not a retry. */
  lemma {:induction false} BaseIsLastSettled(looks: seq<Look>)
    ensures var n := After(looks);
            && n.retries <= |looks|
            && n.base == if n.retries == |looks| then Look(0, 0) else looks[|looks| - n.retries - 1]
    decreases |looks|
  {
    RetriesAreSuspicious(looks);
    if looks != [] { BaseIsLastSettled(looks[..|looks| - 1]); }
  }

  /** A node is suspected after a look iff it was online, and more was sent to it and
      nothing received from it than at the look it is compared with, and this was
      not the third time in a row. */
  lemma SuspectedIff(looks: seq<Look>)
    requires looks != []
    ensures var n, l := After(looks[..|looks| - 1]), looks[|looks| - 1];
            && (After(looks).retries > 0 <==>
                  !n.offline && l.sent > n.base.sent && l.received == n.base.received && n.retries < 2)
            && (After(looks).retries > 0 ==> After(looks).retries == n.retries + 1)
  {
    RetriesAreSuspicious(looks[..|looks| - 1]);
  }

  /** The last look reports the node back online iff it was offline and more has been
      received from it than at the look before. */
  lemma OnlineIffReceived(looks: seq<Look>)
    requires looks != []
    ensures var k := |looks| - 1;
            var init := looks[..k];
            Reports(looks) == Reports(init) + [CameOnline] <==>
              After(init).offline && k >= 1 && looks[k].received > looks[k - 1].received
  {
    var init := looks[..|looks| - 1];
    RetriesAreSuspicious(init);
    BaseIsLastSettled(init);
    assert Reports(init) + [WentOffline] != Reports(init) + [CameOnline] by {
      assert (Reports(init) + [WentOffline])[|Reports(init)|] == WentOffline;
    }
    assert |Reports(init) + [CameOnline]| == |Reports(init)| + 1;
  }

  /** A node is reported offline exactly when it was online and not suspected three
      looks ago, and since then more was sent to it at each look than at the look
      before those three, and nothing received. */
  lemma OfflineAfterThreeLooks(looks: seq<Look>)
    ensures ReportsOffline(looks) <==>
              && |looks| >= 3
              && var m := |looks| - 3;
                 var n, base := After(looks[..m]), if m == 0 then Look(0, 0) else looks[m - 1];
                 && !n.offline && n.retries == 0
                 && forall i | m <= i < |looks| :: looks[i].sent > base.sent && looks[i].received == base.received
  {
    if |looks| >= 3 { BaseIsLastSettled(looks[..|looks| - 3]); }
    ThreeSuspicious(looks);
  }

  lemma OfflineIsStep(looks: seq<Look>)
    requires looks != []
    ensures ReportsOffline(looks) <==> Step(After(looks[..|looks| - 1]), looks[|looks| - 1]).1 == Some(WentOffline)
  {
    hide Step, After;
    var before := Reports(looks[..|looks| - 1]);
    assert (before + [WentOffline])[|before|] == WentOffline && (before + [CameOnline])[|before|] == CameOnline;
    assert |before + [WentOffline]| == |before| + 1;
  }

  lemma ThreeSuspicious(looks: seq<Look>)
    ensures ReportsOffline(looks) <==>
              && |looks| >= 3
              && var n := After(looks[..|looks| - 3]);
                 !n.offline && n.retries == 0 && forall i | |looks| - 3 <= i < |looks| :: Suspicious(n.base, looks[i])
  {
    var k := |looks|;
    if looks != [] { OfflineIsStep(looks); }
    if ReportsOffline(looks) {
      var init := looks[..k - 1];
      RetriesAreSuspicious(init);
      assert init[..k - 3] == looks[..k - 3];
      assert forall i | k - 3 <= i < k - 1 :: looks[i] == init[i];
    }
    if k >= 3 {
      var n0, n1, n2 := After(looks[..k - 3]), After(looks[..k - 2]), After(looks[..k - 1]);
      assert looks[..k - 1][..k - 2] == looks[..k - 2] && looks[..k - 2][..k - 3] == looks[..k - 3];
      assert n1 == Step(n0, looks[k - 3]).0 && n2 == Step(n1, looks[k - 2]).0;
    }
  }

  /** Reports alternate, starting with offline, and the node is offline iff that was the last. */
  lemma {:induction false} ReportsAlternate(looks: seq<Look>)
    ensures After(looks).offline <==> |Reports(looks)| % 2 == 1
    ensures forall i | 0 <= i < |Reports(looks)| :: Reports(looks)[i] == if i % 2 == 0 then WentOffline else CameOnline
    decreases |looks|
  {
    if looks != [] {
      ReportsAlternate(looks[..|looks| - 1]);
    }
  }

  lemma LooksSnoc(looks: seq<Look>, l: Look)
    ensures After(looks + [l]) == Step(After(looks), l).0
    ensures Reports(looks + [l]) == Reports(looks) + match Step(After(looks), l).1 case None => [] case Some(r) => [r]
  {
    assert (looks + [l])[..|looks|] == looks;
  }

  /** Counters by node; a node that is not listed counts zero. */
  datatype Dump = Dump(received: map<string, nat>, sent: map<string, nat>)

  function LookAt(d: Dump, ip: string): (l: Look)
    ensures ip in d.received ==> l.received == d.received[ip]
    ensures ip in d.sent ==> l.sent == d.sent[ip]
    ensures (ip !in d.received ==> l.received == 0) && (ip !in d.sent ==> l.sent == 0)
  {
    Look(if ip in d.received then d.received[ip] else 0, if ip in d.sent then d.sent[ip] else 0)
  }

  /** The look a check takes at a node, unless it passes the node over. */
  function LookTaken(retryOnly: bool, d: Dump, n: Node, ip: string): seq<Look> {
    if retryOnly && n.retries == 0 then [] else [LookAt(d, ip)]
  }

  ghost predicate Tracks(nodes: map<string, Node>, looks: map<string, seq<Look>>) {
    && looks.Keys == nodes.Keys
    && forall ip {:trigger nodes[ip]} | ip in nodes :: nodes[ip] == After(looks[ip])
  }

  /** What the owner was told about each node since it was added. */
  ghost predicate Told(looks: map<string, seq<Look>>, updates: map<string, seq<Report>>) {
    updates.Keys == looks.Keys && forall ip {:trigger updates[ip]} | ip in looks :: updates[ip] == Reports(looks[ip])
  }

  lemma ToldMore(looks: map<string, seq<Look>>, updates: map<string, seq<Report>>, ip: string, n: Node, l: Look)
    requires Told(looks, updates) && ip in looks && n == After(looks[ip])
    ensures Told(looks[ip := looks[ip] + [l]],
                 match Step(n, l).1 case None => updates case Some(r) => updates[ip := updates[ip] + [r]])
  {
    hide After, Reports, Step;
    LooksSnoc(looks[ip], l);
  }

  /** Each node of `done` has had its look, the others are as before. */
  ghost predicate Checked(retryOnly: bool, d: Dump, done: set<string>, nodes: map<string, Node>,
                          looks: map<string, seq<Look>>,
                          nodes': map<string, Node>, looks': map<string, seq<Look>>)
  {
    && nodes'.Keys == nodes.Keys && looks.Keys == nodes.Keys && looks'.Keys == nodes.Keys
    && (forall ip {:trigger nodes'[ip]} | ip in nodes && ip !in done :: nodes'[ip] == nodes[ip])
    && (forall ip {:trigger looks'[ip]} | ip in nodes ::
          looks'[ip] == looks[ip] + if ip in done then LookTaken(retryOnly, d, nodes[ip], ip) else [])
  }

  /** The looks at a node in a poll of one check and `rechecks` re-checks, the latter only
      while the node is suspected. */
  function LooksPolled(looks: seq<Look>, dumps: nat -> Option<Dump>, rechecks: nat, ip: string): seq<Look> {
    if rechecks == 0 then looks + if dumps(0).Some? then [LookAt(dumps(0).value, ip)] else []
    else
      var before := LooksPolled(looks, dumps, rechecks - 1, ip);
      before + if dumps(rechecks).Some? && After(before).retries > 0 then [LookAt(dumps(rechecks).value, ip)] else []
  }

  ghost predicate AllPolled(before: map<string, seq<Look>>, after: map<string, seq<Look>>,
                            dumps: nat -> Option<Dump>, rechecks: nat)
  {
    && after.Keys == before.Keys
    && forall ip {:trigger after[ip]} | ip in before :: after[ip] == LooksPolled(before[ip], dumps, rechecks, ip)
  }

  lemma FirstPolled(nodes: map<string, Node>, looks: map<string, seq<Look>>,
                    nodes': map<string, Node>, looks': map<string, seq<Look>>, dumps: nat -> Option<Dump>)
    requires dumps(0).None? ==> looks' == looks
    requires dumps(0).Some? ==> Checked(false, dumps(0).value, nodes.Keys, nodes, looks, nodes', looks')
    ensures AllPolled(looks, looks', dumps, 0)
  {
    hide After;
    assert forall ip | ip in looks :: looks[ip] + [] == looks[ip];
  }

  lemma NextPolled(first: map<string, seq<Look>>, nodes: map<string, Node>, looks: map<string, seq<Look>>,
                   nodes': map<string, Node>, looks': map<string, seq<Look>>, dumps: nat -> Option<Dump>, i: nat)
    requires Tracks(nodes, looks) && AllPolled(first, looks, dumps, i)
    requires dumps(i + 1).None? ==> looks' == looks
    requires dumps(i + 1).Some? ==> Checked(true, dumps(i + 1).value, nodes.Keys, nodes, looks, nodes', looks')
    ensures AllPolled(first, looks', dumps, i + 1)
  {
    hide After;
    assert forall ip | ip in looks :: looks[ip] + [] == looks[ip] && looks[ip] == LooksPolled(first[ip], dumps, i, ip);
    assert forall ip | ip in looks :: nodes[ip] == After(looks[ip]);
  }

  /** Retries that remain are at least `least`. */
  ghost predicate Retrying(nodes: map<string, Node>, least: nat) {
    forall ip {:trigger nodes[ip]} | ip in nodes && nodes[ip].retries > 0 :: nodes[ip].retries >= least
  }

  ghost predicate SomeSuspected(nodes: map<string, Node>, among: set<string>) {
    exists ip {:trigger nodes[ip]} :: ip in among && ip in nodes && nodes[ip].retries > 0
  }

  /** A look at a node raises its retries by one or ends them. */
  lemma CheckedRetries(retryOnly: bool, d: Dump, nodes: map<string, Node>, looks: map<string, seq<Look>>,
                       nodes': map<string, Node>, looks': map<string, seq<Look>>, least: nat)
    requires Tracks(nodes, looks) && Tracks(nodes', looks')
    requires Checked(retryOnly, d, nodes.Keys, nodes, looks, nodes', looks')
    requires retryOnly ==> Retrying(nodes, least)
    requires !retryOnly ==> least == 0
    ensures Retrying(nodes', least + 1)
  {
    hide After;
    forall ip | ip in nodes' && nodes'[ip].retries > 0 ensures nodes'[ip].retries >= least + 1 {
      assert looks'[ip] == looks[ip] + LookTaken(retryOnly, d, nodes[ip], ip) && looks[ip] + [] == looks[ip];
      RetriesAreSuspicious(looks[ip]);
      LooksSnoc(looks[ip], LookAt(d, ip));
    }
  }

  class EgressVXLANMonitor {
    var monitorNodes: map<string, Node>
    /** The messages sent to the owner, by node. */
    var updates: map<string, seq<Report>>

    /** The looks taken at each node since it was added. */
    ghost var looks: map<string, seq<Look>>

    ghost predicate Valid()
      reads this
    {
      Tracks(monitorNodes, looks) && Told(looks, updates)
    }

    constructor ()
      ensures Valid() && monitorNodes == map[]
    {
      monitorNodes, updates, looks := map[], map[], map[];
    }

    method AddNode(ip: string)
      requires Valid()
      modifies this
      ensures Valid() && monitorNodes.Keys == old(monitorNodes).Keys + {ip}
      ensures looks == if ip in old(monitorNodes) then old(looks) else old(looks)[ip := []]
    {
      if ip in monitorNodes {
        return;
      }
      monitorNodes, updates, looks := monitorNodes[ip := NewNode], updates[ip := []], looks[ip := []];
    }

    method RemoveNode(ip: string)
      requires Valid()
      modifies this
      ensures Valid() && monitorNodes == old(monitorNodes) - {ip} && looks == old(looks) - {ip}
    {
      if ip !in monitorNodes {
        assert monitorNodes - {ip} == monitorNodes && looks - {ip} == looks;
        return;
      }
      monitorNodes, updates, looks := monitorNodes - {ip}, updates - {ip}, looks - {ip};
    }

    /** Looks at every node, or at the suspected ones; asks for a retry iff one is suspected afterwards. */
    method Check(retryOnly: bool, dump: Option<Dump>) returns (retry: bool)
      requires Valid()
      modifies this
      ensures Valid() && monitorNodes.Keys == old(monitorNodes).Keys
      ensures dump.None? ==> !retry && looks == old(looks) && monitorNodes == old(monitorNodes)
      ensures dump.Some? ==>
                Checked(retryOnly, dump.value, old(monitorNodes).Keys, old(monitorNodes), old(looks),
                        monitorNodes, looks)
      ensures dump.Some? ==> (retry <==> SomeSuspected(monitorNodes, monitorNodes.Keys))
    {
      hide Tracks, Told, Checked, SomeSuspected;
      if dump.None? {
        return false;
      }
      retry := false;
      var todo := monitorNodes.Keys;
      ghost var done: set<string> := {};
      NoneChecked(retryOnly, dump.value, monitorNodes, looks);
      while todo != {}
        invariant Valid() && old(monitorNodes).Keys == monitorNodes.Keys == done + todo && done !! todo
        invariant Checked(retryOnly, dump.value, done, old(monitorNodes), old(looks), monitorNodes, looks)
        invariant retry <==> SomeSuspected(monitorNodes, done)
      {
        var ip :| ip in todo;
        retry := CheckNode(retryOnly, dump.value, ip, retry, done, old(monitorNodes), old(looks));
        todo, done := todo - {ip}, done + {ip};
      }
      assert done == monitorNodes.Keys;
    }

    method CheckNode(retryOnly: bool, d: Dump, ip: string, retry: bool,
                     ghost done: set<string>, ghost nodes: map<string, Node>, ghost seen: map<string, seq<Look>>)
      returns (retry': bool)
      requires Valid() && ip in monitorNodes && ip !in done
      requires Checked(retryOnly, d, done, nodes, seen, monitorNodes, looks)
      requires (retry <==> SomeSuspected(monitorNodes, done))
      modifies this
      ensures Valid() && monitorNodes.Keys == old(monitorNodes).Keys
      ensures Checked(retryOnly, d, done + {ip}, nodes, seen, monitorNodes, looks)
      ensures retry' <==> SomeSuspected(monitorNodes, done + {ip})
    {
      hide After, Step, Tracks, Checked, SomeSuspected;
      TracksKnown(monitorNodes, looks, ip);
      CheckedUntouched(retryOnly, d, done, nodes, seen, monitorNodes, looks, ip);
      var node := monitorNodes[ip];
      retry' := retry;
      if retryOnly && node.retries == 0 {
        PassedOver(retryOnly, d, done, nodes, seen, monitorNodes, looks, ip);
        return;
      }
      var l := LookAt(d, ip);
      var node', report := Examine(node, l);
      LookedAt(retryOnly, d, done, nodes, seen, monitorNodes, looks, ip, node');
      ToldMore(looks, updates, ip, node, l);
      monitorNodes, looks := monitorNodes[ip := node'], looks[ip := looks[ip] + [l]];
      if report.Some? {
        updates := updates[ip := updates[ip] + [report.value]];
      }
      if node'.retries > 0 {
        retry' := true;
      }
    }

    /** One poll: a check, and re-checks while a node is suspected and the counters can be
        read; never more than two. */
    method Poll(dumps: nat -> Option<Dump>) returns (rechecks: nat)
      requires Valid()
      modifies this
      ensures Valid() && rechecks <= 2 && monitorNodes.Keys == old(monitorNodes).Keys
      ensures AllPolled(old(looks), looks, dumps, rechecks)
      ensures (forall i | 0 <= i < rechecks :: dumps(i).Some?)
              && (dumps(rechecks).Some? ==> !SomeSuspected(monitorNodes, monitorNodes.Keys))
    {
      hide Tracks, Told, SomeSuspected, Retrying, AllPolled, Checked;
      rechecks := 0;
      var retry := Check(false, dumps(0));
      FirstPolled(old(monitorNodes), old(looks), monitorNodes, looks, dumps);
      if retry {
        CheckedRetries(false, dumps(0).value, old(monitorNodes), old(looks), monitorNodes, looks, 0);
      }
      while retry
        invariant Valid() && monitorNodes.Keys == old(monitorNodes).Keys
        invariant rechecks <= 2 && (retry ==> rechecks < 2 && Retrying(monitorNodes, rechecks + 1))
        invariant AllPolled(old(looks), looks, dumps, rechecks) && forall i | 0 <= i < rechecks :: dumps(i).Some?
        invariant retry <==> dumps(rechecks).Some? && SomeSuspected(monitorNodes, monitorNodes.Keys)
        decreases 2 - rechecks
      {
        ghost var nodes, seen := monitorNodes, looks;
        retry := Check(true, dumps(rechecks + 1));
        NextPolled(old(looks), nodes, seen, monitorNodes, looks, dumps, rechecks);
        if retry {
          CheckedRetries(true, dumps(rechecks + 1).value, nodes, seen, monitorNodes, looks, rechecks + 1);
          FewRetries(monitorNodes, looks, rechecks + 2);
        }
        rechecks := rechecks + 1;
      }
    }
  }

  lemma TracksKnown(nodes: map<string, Node>, looks: map<string, seq<Look>>, ip: string)
    requires Tracks(nodes, looks) && ip in nodes
    ensures ip in looks && nodes[ip] == After(looks[ip]) && (nodes[ip].offline ==> nodes[ip].retries == 0)
  {
    hide After;
    RetriesAreSuspicious(looks[ip]);
  }

  lemma CheckedUntouched(retryOnly: bool, d: Dump, done: set<string>, nodes: map<string, Node>,
                         looks: map<string, seq<Look>>,
                         nodes': map<string, Node>, looks': map<string, seq<Look>>, ip: string)
    requires Checked(retryOnly, d, done, nodes, looks, nodes', looks') && ip in nodes' && ip !in done
    ensures ip in nodes && nodes'[ip] == nodes[ip]
  {
  }

  lemma PassedOver(retryOnly: bool, d: Dump, done: set<string>, nodes: map<string, Node>, looks: map<string, seq<Look>>,
                   nodes': map<string, Node>, looks': map<string, seq<Look>>, ip: string)
    requires Checked(retryOnly, d, done, nodes, looks, nodes', looks') && ip in nodes' && ip !in done
    requires retryOnly && nodes'[ip].retries == 0
    ensures Checked(retryOnly, d, done + {ip}, nodes, looks, nodes', looks')
    ensures SomeSuspected(nodes', done + {ip}) <==> SomeSuspected(nodes', done)
  {
    assert nodes'[ip] == nodes[ip];
  }

  lemma LookedAt(retryOnly: bool, d: Dump, done: set<string>, nodes: map<string, Node>, looks: map<string, seq<Look>>,
                 nodes': map<string, Node>, looks': map<string, seq<Look>>, ip: string, n: Node)
    requires Tracks(nodes', looks') && Checked(retryOnly, d, done, nodes, looks, nodes', looks')
    requires ip in nodes' && ip !in done
    requires !(retryOnly && nodes'[ip].retries == 0) && n == Step(nodes'[ip], LookAt(d, ip)).0
    ensures Tracks(nodes'[ip := n], looks'[ip := looks'[ip] + [LookAt(d, ip)]])
    ensures Checked(retryOnly, d, done + {ip}, nodes, looks,
                    nodes'[ip := n], looks'[ip := looks'[ip] + [LookAt(d, ip)]])
    ensures SomeSuspected(nodes'[ip := n], done + {ip}) <==> SomeSuspected(nodes', done) || n.retries > 0
  {
    hide After, Step;
    var l := LookAt(d, ip);
    assert nodes'[ip] == nodes[ip] && looks'[ip] == looks[ip] + [];
    LooksSnoc(looks'[ip], l);
    assert looks'[ip] + [l] == looks[ip] + [l];
    var after := nodes'[ip := n];
    assert after[ip] == n && forall x {:trigger after[x]} {:trigger nodes'[x]} | x in done && x in nodes' ::
        after[x] == nodes'[x];
  }

  lemma NoneChecked(retryOnly: bool, d: Dump, nodes: map<string, Node>, looks: map<string, seq<Look>>)
    requires Tracks(nodes, looks)
    ensures Checked(retryOnly, d, {}, nodes, looks, nodes, looks) && !SomeSuspected(nodes, {})
  {
    assert forall ip | ip in looks :: looks[ip] + [] == looks[ip];
  }

  /** A suspected node has at most two retries. */
  lemma FewRetries(nodes: map<string, Node>, looks: map<string, seq<Look>>, least: nat)
    requires Tracks(nodes, looks) && Retrying(nodes, least) && SomeSuspected(nodes, nodes.Keys)
    ensures least <= MAX_RETRIES
  {
    hide After;
    var ip :| ip in nodes && nodes[ip].retries > 0;
    RetriesAreSuspicious(looks[ip]);
  }

  /** The branches of one look, in the order the counters are compared. */
  method Examine(n: Node, l: Look) returns (n': Node, report: Option<Report>)
    requires n.offline ==> n.retries == 0
    ensures (n', report) == Step(n, l) && (n'.retries > 0 ==> n'.retries == n.retries + 1)
  {
    n', report := n, None;
    if n.offline {
      if l.received > n.base.received {
        n' := n'.(offline := false);
        report := Some(CameOnline);
      }
    } else {
      if l.sent > n.base.sent && l.received == n.base.received {
        n' := n'.(retries := n'.retries + 1);
        if n'.retries > MAX_RETRIES {
          n' := n'.(retries := 0, offline := true);
          report := Some(WentOffline);
        } else {
          return;
        }
      } else {
        n' := n'.(retries := 0);
      }
    }
    n' := n'.(base := l);
  }
}
