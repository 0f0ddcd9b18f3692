/** The calls an EgressIPTracker makes on its EgressIPWatcher, and the protocol
    those calls follow.  A `View` is what a watcher that only listens can know:
    which address is held, by which VNID, on which node, and which route each
    VNID was last given.  `Run` replays a trace of calls and yields a view only
    if every call was allowed when it was made. */
module Watcher {
  import opened Wrappers

  datatype Call =
    | ClaimEgressIP(vnid: nat, ip: string, node: string)
    | ReleaseEgressIP(ip: string, node: string)
    | SetNormal(vnid: nat)
    | SetDropped(vnid: nat)
    | SetVia(vnid: nat, ip: string, node: string)
    | UpdateEgressCIDRs

  datatype Route = Normal | Dropped | Via(ip: string, node: string)

  datatype Holder = Holder(vnid: nat, node: string)

  /** A VNID without an entry in `routes` has the normal route. */
  datatype View = View(held: map<string, Holder>, routes: map<nat, Route>)

  const EmptyView := View(map[], map[])

  function RouteOf(w: View, vnid: nat): Route {
    if vnid in w.routes then w.routes[vnid] else Normal
  }

  /** An address is claimed only while free, released only by the node that
      holds it, and a route goes only through an address that the same VNID
      holds on that node.  No announcement repeats the route already in force. */
  predicate Allowed(w: View, c: Call) {
    match c
    case ClaimEgressIP(_, ip, _) => ip !in w.held
    case ReleaseEgressIP(ip, node) => ip in w.held && w.held[ip].node == node
    case SetNormal(vnid) => RouteOf(w, vnid) != Normal
    case SetDropped(vnid) => RouteOf(w, vnid) != Dropped
    case SetVia(vnid, ip, node) =>
      ip in w.held && w.held[ip] == Holder(vnid, node) && RouteOf(w, vnid) != Via(ip, node)
    case UpdateEgressCIDRs => true
  }

  function Apply(w: View, c: Call): View {
    match c
    case ClaimEgressIP(vnid, ip, node) => w.(held := w.held[ip := Holder(vnid, node)])
    case ReleaseEgressIP(ip, _) => w.(held := w.held - {ip})
    case SetNormal(vnid) => w.(routes := w.routes - {vnid})
    case SetDropped(vnid) => w.(routes := w.routes[vnid := Dropped])
    case SetVia(vnid, ip, node) => w.(routes := w.routes[vnid := Via(ip, node)])
    case UpdateEgressCIDRs => w
  }

  function Run(trace: seq<Call>): Option<View> {
    if trace == [] then Some(EmptyView)
    else
      var c := trace[|trace| - 1];
      match Run(trace[..|trace| - 1])
      case None => None
      case Some(w) => if Allowed(w, c) then Some(Apply(w, c)) else None
  }

  lemma RunSnoc(trace: seq<Call>, c: Call)
    requires Run(trace).Some? && Allowed(Run(trace).value, c)
    ensures Run(trace + [c]) == Some(Apply(Run(trace).value, c))
  {
    assert (trace + [c])[..|trace|] == trace;
  }

  lemma {:induction false} RunPrefix(trace: seq<Call>, i: nat)
    requires Run(trace).Some? && i <= |trace|
    ensures Run(trace[..i]).Some?
    decreases |trace|
  {
    if i < |trace| {
      var init := trace[..|trace| - 1];
      RunPrefix(init, i);
      assert init[..i] == trace[..i];
    } else {
      assert trace[..i] == trace;
    }
  }

  predicate Concerns(c: Call, ip: string) {
    (c.ClaimEgressIP? || c.ReleaseEgressIP?) && c.ip == ip
  }

  /** No claim or release of `ip` among calls `i..j` of the trace. */
  predicate Quiet(trace: seq<Call>, i: nat, j: nat, ip: string)
    requires j <= |trace|
  {
    forall k | i <= k < j :: !Concerns(trace[k], ip)
  }

  /** What a view says about an address is the last thing that was called for it. */
  lemma {:induction false} HeldByLastClaim(trace: seq<Call>, ip: string) returns (i: nat)
    requires Run(trace).Some? && ip in Run(trace).value.held
    ensures i < |trace| && Quiet(trace, i + 1, |trace|, ip)
    ensures var h := Run(trace).value.held[ip]; trace[i] == ClaimEgressIP(h.vnid, ip, h.node)
    decreases |trace|
  {
    var n := |trace| - 1;
    if Concerns(trace[n], ip) {
      i := n;
    } else {
      i := HeldByLastClaim(trace[..n], ip);
    }
  }

  lemma {:induction false} FreeSinceLastRelease(trace: seq<Call>, ip: string, i: nat)
    requires Run(trace).Some? && ip !in Run(trace).value.held
    requires i < |trace| && trace[i].ClaimEgressIP? && trace[i].ip == ip
    ensures exists k | i < k < |trace| :: trace[k].ReleaseEgressIP? && trace[k].ip == ip
    decreases |trace|
  {
    var n := |trace| - 1;
    if !(trace[n].ReleaseEgressIP? && trace[n].ip == ip) {
      FreeSinceLastRelease(trace[..n], ip, i);
      var k :| i < k < n && trace[..n][k].ReleaseEgressIP? && trace[..n][k].ip == ip;
      assert trace[k].ReleaseEgressIP?;
    }
  }

  /** Every release is the first call for its address after a claim of it on the same node. */
  lemma ReleaseFollowsClaim(trace: seq<Call>, r: nat) returns (i: nat)
    requires Run(trace).Some? && r < |trace| && trace[r].ReleaseEgressIP?
    ensures i < r && Quiet(trace, i + 1, r, trace[r].ip)
    ensures trace[i].ClaimEgressIP? && trace[i].ip == trace[r].ip && trace[i].node == trace[r].node
  {
    RunPrefix(trace, r + 1);
    assert trace[..r + 1][..r] == trace[..r];
    i := HeldByLastClaim(trace[..r], trace[r].ip);
  }

  /** Between two claims of one address there is always a release of it. */
  lemma ClaimsAreSeparated(trace: seq<Call>, i: nat, j: nat)
    requires Run(trace).Some? && i < j < |trace|
    requires trace[i].ClaimEgressIP? && trace[j].ClaimEgressIP? && trace[i].ip == trace[j].ip
    ensures exists k | i < k < j :: trace[k].ReleaseEgressIP? && trace[k].ip == trace[i].ip
  {
    RunPrefix(trace, j + 1);
    assert trace[..j + 1][..j] == trace[..j];
    FreeSinceLastRelease(trace[..j], trace[j].ip, i);
    var k :| i < k < j && trace[..j][k].ReleaseEgressIP? && trace[..j][k].ip == trace[i].ip;
    assert trace[k].ReleaseEgressIP?;
  }

  /** A route is only ever announced through an address whose last claim named
      the same VNID and node, and which was not released since. */
  lemma ViaFollowsClaim(trace: seq<Call>, r: nat) returns (i: nat)
    requires Run(trace).Some? && r < |trace| && trace[r].SetVia?
    ensures i < r && Quiet(trace, i + 1, r, trace[r].ip)
    ensures trace[i] == ClaimEgressIP(trace[r].vnid, trace[r].ip, trace[r].node)
  {
    RunPrefix(trace, r + 1);
    assert trace[..r + 1][..r] == trace[..r];
    i := HeldByLastClaim(trace[..r], trace[r].ip);
  }

  /** The trace goes on after `before`, with claims and releases only of the addresses `ips`. */
  ghost predicate Touches(before: seq<Call>, after: seq<Call>, ips: set<string>) {
    && before <= after
    && (forall i {:trigger after[i]} | |before| <= i < |after| ::
          after[i].ClaimEgressIP? || after[i].ReleaseEgressIP? ==> after[i].ip in ips)
  }

  /** The same, and `asked` says whether a new allocation is asked for. */
  ghost predicate Continues(before: seq<Call>, after: seq<Call>, ips: set<string>, asked: bool) {
    Touches(before, after, ips) && (asked <==> exists i | |before| <= i < |after| :: after[i] == UpdateEgressCIDRs)
  }

  lemma ContinuesSame(trace: seq<Call>, ips: set<string>)
    ensures Continues(trace, trace, ips, false)
  {
  }

  lemma ContinuesSnoc(trace: seq<Call>, c: Call, ips: set<string>)
    requires c.ClaimEgressIP? || c.ReleaseEgressIP? ==> c.ip in ips
    ensures Continues(trace, trace + [c], ips, c == UpdateEgressCIDRs)
  {
    assert (trace + [c])[|trace|] == c;
  }

  lemma ContinuesWider(a: seq<Call>, b: seq<Call>, ips: set<string>, more: set<string>, asked: bool)
    requires Continues(a, b, ips, asked) && ips <= more
    ensures Continues(a, b, more, asked)
  {
  }

  lemma ContinuesOn(a: seq<Call>, b: seq<Call>, c: seq<Call>, ips: set<string>, more: set<string>, all: set<string>,
                    asked: bool, again: bool)
    requires Continues(a, b, ips, asked) && Continues(b, c, more, again) && ips <= all && more <= all
    ensures Continues(a, c, all, asked || again)
  {
    assert forall i | 0 <= i < |b| :: b[i] == c[i];
  }
}
