/** The watcher on a node: what the tracker's calls do to the packet marks, to
    table 100 of the bridge and to the set of monitored nodes. */
module EgressNode {
  import opened Wrappers
  import opened Watcher
  import opened Cidr
  import opened OpenFlow

  // ---- marks -----------------------------------------------------------------

  predicate HasBit(x: nat, k: nat) {
    x / Pow2(k) % 2 == 1
  }

  function SetBit(x: nat, k: nat): nat {
    if HasBit(x, k) then x else x + Pow2(k)
  }

  function FlipBit(x: nat, k: nat): nat {
    if HasBit(x, k) then assert x >= Pow2(k) by { BitIsBelow(x, Pow2(k)); } x - Pow2(k) else x + Pow2(k)
  }

  lemma BitIsBelow(x: nat, d: nat)
    requires d > 0 && x / d % 2 == 1
    ensures x >= d
  {
    if x < d {
      DivUnique(x, d, 0, x);
    }
  }

  /** The mark of a VNID; `masqueradeBit` is the number of the reserved bit, if there is one. */
  function MarkForVNID(vnid: nat, masqueradeBit: Option<nat>): nat {
    var v := if vnid == 0 then 0xff00_0000 else vnid;
    if masqueradeBit.Some? && HasBit(v, masqueradeBit.value) then FlipBit(SetBit(v, 24), masqueradeBit.value) else v
  }

  /** Facts about the few powers of two that matter. */
  lemma {:induction false} PowersOfTwo(k: nat)
    requires k < 32
    ensures Pow2(24) == 0x100_0000 && Pow2(31) == 0x8000_0000 && Pow2(k) <= Pow2(31)
    ensures k < 24 ==> 2 * Pow2(k) <= Pow2(24) && Pow2(24) == Pow2(k) * (2 * Pow2(23 - k))
    ensures k >= 24 ==> Pow2(k) >= Pow2(24)
  {
    assert Pow2(8) == 256 && Pow2(16) == 65536 && Pow2(24) == 0x100_0000 by {
      Pow2Add(8, 8);
      Pow2Add(16, 8);
    }
    assert Pow2(31) == 0x8000_0000 by {
      Pow2Add(24, 7);
    }
    Pow2Grows(k, 31);
    if k < 24 {
      Pow2Grows(k + 1, 24);
      Pow2Add(k, 24 - k);
    } else {
      Pow2Grows(24, k);
    }
  }

  /** What a mark is: the VNID, or 0xff000000 for VNID 0, if that lacks the masquerade bit;
      otherwise with bit 24 in place of that bit, which VNID 0 has anyway. */
  lemma MarkShape(v: nat, k: nat)
    requires v < 0x100_0000 && k < 32
    ensures var m := MarkForVNID(v, Some(k));
            if v == 0 then m == if k < 24 then 0xff00_0000 else 0xff00_0000 - Pow2(k)
            else if v / Pow2(k) % 2 == 1 then k < 24 && m == v + 0x100_0000 - Pow2(k)
            else m == v
    ensures MarkForVNID(v, None) == if v == 0 then 0xff00_0000 else v
  {
    hide Pow2;
    PowersOfTwo(k);
    if v == 0 {
      if k < 24 {
        NoLowBits(k);
      } else {
        TopBit();
        HighBits(k);
      }
    } else if HasBit(v, k) {
      BitIsBelow(v, Pow2(k));
      DivUnique(v, Pow2(24), 0, v);
      SetKeepsBit(v, k);
    }
  }

  lemma TopBit()
    ensures HasBit(0xff00_0000, 24)
  {
    PowersOfTwo(24);
  }

  lemma HighBits(k: nat)
    requires 24 <= k < 32
    ensures HasBit(0xff00_0000, k)
  {
    hide Pow2;
    PowersOfTwo(k);
    Pow2Add(24, k - 24);
    SmallPowers(k - 24);
    var d := Pow2(k - 24);
    assert 0xff00_0000 == (255 / d) * (0x100_0000 * d) + (255 % d) * 0x100_0000;
    DivUnique(0xff00_0000, 0x100_0000 * d, 255 / d, (255 % d) * 0x100_0000);
  }

  lemma SmallPowers(k: nat)
    requires k < 8
    ensures Pow2(k) in {1, 2, 4, 8, 16, 32, 64, 128}
  {
    assert Pow2(0) == 1 && Pow2(1) == 2 && Pow2(2) == 4 && Pow2(3) == 8;
    assert Pow2(4) == 16 && Pow2(5) == 32 && Pow2(6) == 64 && Pow2(7) == 128;
  }

  lemma NoLowBits(k: nat)
    requires k < 24
    ensures !HasBit(0xff00_0000, k)
  {
    hide Pow2;
    PowersOfTwo(k);
    var d, e := Pow2(k), Pow2(23 - k);
    assert 0xff00_0000 == (2 * (255 * e)) * d by { Regroup(d, e); }
    DivUnique(0xff00_0000, d, 2 * (255 * e), 0);
  }

  lemma Regroup(d: nat, e: nat)
    ensures 255 * (d * (2 * e)) == (2 * (255 * e)) * d
  {
    assert d * (2 * e) == 2 * (d * e);
    assert (2 * (255 * e)) * d == 510 * (d * e);
  }

  /** Setting bit 24 of a number below it leaves the lower bits. */
  lemma SetKeepsBit(v: nat, k: nat)
    requires v < 0x100_0000 && k < 24
    ensures HasBit(v + 0x100_0000, k) == HasBit(v, k) && SetBit(v, 24) == v + 0x100_0000
  {
    hide Pow2;
    PowersOfTwo(k);
    DivUnique(v, Pow2(24), 0, v);
    var d, e := Pow2(k), Pow2(23 - k);
    AddMultiple(v, d, 2 * e);
    assert (v / d + 2 * e) % 2 == v / d % 2;
  }

  lemma AddMultiple(x: nat, d: nat, q: int)
    requires d > 0
    ensures (x + d * q) / d == x / d + q
  {
    assert x == (x / d) * d + x % d;
    assert (x / d + q) * d == (x / d) * d + d * q;
    DivUnique(x + d * q, d, x / d + q, x % d);
  }

  /** A mark is never zero and never has the masquerade bit. */
  lemma MarkAvoidsBit(v: nat, k: nat)
    requires v < 0x100_0000 && k < 32
    ensures MarkForVNID(v, Some(k)) != 0 && !HasBit(MarkForVNID(v, Some(k)), k)
    ensures MarkForVNID(v, None) != 0
  {
    hide Pow2;
    MarkShape(v, k);
    PowersOfTwo(k);
    if v / Pow2(k) % 2 == 1 { BitIsBelow(v, Pow2(k)); }
    var x := if v == 0 then 0xff00_0000 else v;
    if HasBit(x, k) {
      SetKeeps(x, k);
      FlipClears(SetBit(x, 24), k);
    }
  }

  lemma SetKeeps(x: nat, k: nat)
    requires (x == 0xff00_0000 || x < 0x100_0000) && k < 32 && HasBit(x, k)
    ensures HasBit(SetBit(x, 24), k)
  {
    hide Pow2;
    PowersOfTwo(k);
    if x == 0xff00_0000 {
      TopBit();
    } else {
      BitIsBelow(x, Pow2(k));
      SetKeepsBit(x, k);
    }
  }

  lemma FlipClears(x: nat, k: nat)
    requires HasBit(x, k)
    ensures !HasBit(FlipBit(x, k), k)
  {
    hide Pow2;
    var d := Pow2(k);
    BitIsBelow(x, d);
    AddMultiple(x - d, d, 1);
  }

  /** Two VNIDs of 24 bits never share a mark. */
  lemma MarksDiffer(v: nat, w: nat, k: nat)
    requires v < 0x100_0000 && w < 0x100_0000 && v != w && k < 32
    ensures MarkForVNID(v, Some(k)) != MarkForVNID(w, Some(k))
    ensures MarkForVNID(v, None) != MarkForVNID(w, None)
  {
    hide Pow2;
    PowersOfTwo(k);
    MarkShape(v, k);
    MarkShape(w, k);
    if v / Pow2(k) % 2 == 1 { BitIsBelow(v, Pow2(k)); }
    if w / Pow2(k) % 2 == 1 { BitIsBelow(w, Pow2(k)); }
  }

  // ---- table 100 ---------------------------------------------------------------

  /** Where table 100 sends a packet: away, on to the egress policy with or
      without a mark, through the tunnel to another node, or to the host. */
  datatype Exit = Discard | ToPolicy | ToPolicyMarked(mark: Option<nat>) | ToTunnel(node: string) | ToHost

  datatype Host = Host(localIP: string, localAddr: nat, vxlanPort: nat, masqueradeBit: Option<nat>)

  function FixedFlows(h: Host): set<Flow<Exit>> {
    { Flow(300, Everything.(kind := Over(UDP), port := Some(h.vxlanPort)), Discard),
      Flow(200, Everything.(kind := Over(TCP), port := Some(53), dst := Some(Cidr(h.localAddr, 32))), ToHost),
      Flow(200, Everything.(kind := Over(UDP), port := Some(53), dst := Some(Cidr(h.localAddr, 32))), ToHost),
      Flow(0, Everything, ToPolicy) }
  }

  function DropFlow(v: nat): Flow<Exit> {
    Flow(100, Everything.(reg0 := Some(v)), Discard)
  }

  function ViaFlow(h: Host, v: nat, node: string, mark: Option<nat>): Flow<Exit> {
    if node == "" then DropFlow(v)
    else if node == h.localIP then Flow(100, Everything.(reg0 := Some(v), kind := AnyIP), ToPolicyMarked(mark))
    else Flow(100, Everything.(reg0 := Some(v), kind := AnyIP), ToTunnel(node))
  }

  /** The flow that carries out a route other than the normal one. */
  ghost function RouteFlow(h: Host, v: nat, r: Route): Flow<Exit> {
    if r.Via? then ViaFlow(h, v, r.node, Some(MarkForVNID(v, h.masqueradeBit))) else DropFlow(v)
  }

  /** Table 100 as the announced routes want it. */
  ghost function TableFor(h: Host, routes: map<nat, Route>): set<Flow<Exit>> {
    FixedFlows(h) + set v | v in routes && routes[v] != Normal :: RouteFlow(h, v, routes[v])
  }

  /** What should become of a packet of VNID `v`. */
  ghost function ExitFor(h: Host, v: nat, r: Route): Exit {
    match r
    case Normal => ToPolicy
    case Dropped => Discard
    case Via(_, node) =>
      if node == "" then Discard
      else if node == h.localIP then ToPolicyMarked(Some(MarkForVNID(v, h.masqueradeBit)))
      else ToTunnel(node)
  }

  /** Traffic that table 100 treats alike for every VNID. */
  predicate Special(h: Host, p: Packet) {
    || (p.proto == Some(UDP) && p.port == h.vxlanPort)
    || ((p.proto == Some(UDP) || p.proto == Some(TCP)) && p.port == 53 && Contains(Cidr(h.localAddr, 32), p.dst))
  }

  lemma RouteFlowsByVNID(h: Host, v: nat, r: Route)
    ensures RouteFlow(h, v, r).when.reg0 == Some(v) && RouteFlow(h, v, r).priority == 100
    ensures r != Normal ==> RouteFlow(h, v, r).action == ExitFor(h, v, r)
    ensures forall p: Packet | p.isIP && p.reg0 == v :: Matches(RouteFlow(h, v, r).when, p)
  {
    hide MarkForVNID;
  }

  lemma FixedFlowsMatch(h: Host, p: Packet, f: Flow<Exit>)
    requires !Special(h, p) && f in FixedFlows(h) && Matches(f.when, p)
    ensures f == Flow(0, Everything, ToPolicy)
  {
    hide Contains;
  }

  /** Every other IP packet leaves table 100 as the route in force for its VNID says. */
  lemma PacketFollowsRoute(h: Host, w: View, p: Packet)
    requires p.isIP && !Special(h, p)
    ensures Decides(TableFor(h, w.routes), p, ExitFor(h, p.reg0, RouteOf(w, p.reg0)))
    ensures var r, exit := RouteOf(w, p.reg0), ExitFor(h, p.reg0, RouteOf(w, p.reg0));
            && (r.Normal? ==> exit == ToPolicy) && (r.Dropped? ==> exit == Discard)
            && (r.Via? && r.node == "" ==> exit == Discard)
            && (r.Via? && r.node != "" && r.node != h.localIP ==> exit == ToTunnel(r.node))
            && (r.Via? && r.node != "" && r.node == h.localIP ==>
                  exit == ToPolicyMarked(Some(MarkForVNID(p.reg0, h.masqueradeBit))))
  {
    hide FixedFlows, RouteFlow, Special, MarkForVNID;
    var t, v := TableFor(h, w.routes), p.reg0;
    var last := Flow(0, Everything, ToPolicy);
    assert last in FixedFlows(h) by { LastIsFixed(h); }
    assert Matches(last.when, p);
    forall g | g in t && Matches(g.when, p)
      ensures g == last || (RouteOf(w, v) != Normal && g == RouteFlow(h, v, RouteOf(w, v)))
    {
      if g in FixedFlows(h) {
        FixedFlowsMatch(h, p, g);
      } else {
        var u :| u in w.routes && w.routes[u] != Normal && g == RouteFlow(h, u, w.routes[u]);
        RouteFlowsByVNID(h, u, w.routes[u]);
      }
    }
    if RouteOf(w, v) != Normal {
      RouteFlowsByVNID(h, v, RouteOf(w, v));
      FlowDecides(t, p, RouteFlow(h, v, RouteOf(w, v)));
    } else {
      FlowDecides(t, p, last);
      assert ExitFor(h, v, Normal) == ToPolicy by { NormalExit(h, v); }
    }
  }

  /** VXLAN packets never get out, and name lookups of the node's own address go to the
      host, whatever the routes are. */
  lemma SpecialExit(h: Host, w: View, p: Packet)
    requires p.isIP
    ensures p.proto == Some(UDP) && p.port == h.vxlanPort ==> Decides(TableFor(h, w.routes), p, Discard)
    ensures p.proto == Some(TCP) && p.port == 53 && p.dst == h.localAddr ==>
              Decides(TableFor(h, w.routes), p, Exit.ToHost)
    ensures p.proto == Some(UDP) && p.port == 53 && p.dst == h.localAddr && h.vxlanPort != 53 ==>
              Decides(TableFor(h, w.routes), p, Exit.ToHost)
  {
    hide RouteFlow, Decides, Pow2;
    var t := TableFor(h, w.routes);
    forall g | g in t && g !in FixedFlows(h) ensures g.priority == 100 {
      var u :| u in w.routes && w.routes[u] != Normal && g == RouteFlow(h, u, w.routes[u]);
      RouteFlowsByVNID(h, u, w.routes[u]);
    }
    var vxlan := Flow(300, Everything.(kind := Over(UDP), port := Some(h.vxlanPort)), Discard);
    if p.proto == Some(UDP) && p.port == h.vxlanPort {
      FlowDecides(t, p, vxlan);
    } else if p.proto in {Some(UDP), Some(TCP)} && p.port == 53 && p.dst == h.localAddr {
      var dst := Some(Cidr(h.localAddr, 32));
      var dns := Flow(200, Everything.(kind := Over(p.proto.value), port := Some(53), dst := dst), Exit.ToHost);
      assert dns in FixedFlows(h);
      FlowDecides(t, p, dns);
    }
  }

  lemma NormalExit(h: Host, v: nat)
    ensures ExitFor(h, v, Normal) == ToPolicy
  {
  }

  lemma LastIsFixed(h: Host)
    ensures Flow(0, Everything, ToPolicy) in FixedFlows(h)
  {
  }

  /** A flow that sets a mark sets the mark of the VNID it tests for. */
  lemma MarkedFlowsCarryOwnMark(h: Host, w: View, f: Flow<Exit>)
    requires f in TableFor(h, w.routes) && f.action.ToPolicyMarked?
    ensures f.when.reg0.Some? && f.action.mark == Some(MarkForVNID(f.when.reg0.value, h.masqueradeBit))
  {
    hide MarkForVNID;
  }

  // ---- the marks and the monitored nodes --------------------------------------------

  /** The marks of the addresses held on this node. */
  ghost function MarksFor(h: Host, held: map<string, Holder>): map<string, nat> {
    map ip | ip in held && held[ip].node == h.localIP :: MarkForVNID(held[ip].vnid, h.masqueradeBit)
  }

  lemma MarksClaim(h: Host, held: map<string, Holder>, ip: string, vnid: nat, node: string)
    requires ip !in held
    ensures MarksFor(h, held[ip := Holder(vnid, node)]) ==
            if node == h.localIP then MarksFor(h, held)[ip := MarkForVNID(vnid, h.masqueradeBit)] else MarksFor(h, held)
  {
    hide MarkForVNID;
  }

  lemma MarksRelease(h: Host, held: map<string, Holder>, ip: string)
    requires ip in held
    ensures MarksFor(h, held - {ip}) ==
              if held[ip].node == h.localIP then MarksFor(h, held) - {ip} else MarksFor(h, held)
  {
    hide MarkForVNID;
  }

  /** The last claim or release that named the node. */
  ghost function LastAbout(trace: seq<Call>, node: string): Option<Call> {
    if trace == [] then None
    else
      var c := trace[|trace| - 1];
      if (c.ClaimEgressIP? || c.ReleaseEgressIP?) && c.node == node then Some(c)
      else LastAbout(trace[..|trace| - 1], node)
  }

  ghost predicate LastIsClaim(trace: seq<Call>, node: string) {
    LastAbout(trace, node).Some? && LastAbout(trace, node).value.ClaimEgressIP?
  }

  /** Some address is held on the node. */
  ghost predicate Hosts(w: View, node: string) {
    exists ip :: ip in w.held && w.held[ip].node == node
  }

  /** A node whose last call was a claim hosts the address of that claim. */
  lemma {:induction false} ClaimedHosts(trace: seq<Call>, node: string)
    requires Run(trace).Some? && LastIsClaim(trace, node)
    ensures var c := LastAbout(trace, node).value;
            c.ip in Run(trace).value.held && Run(trace).value.held[c.ip] == Holder(c.vnid, node)
    decreases |trace|
  {
    var c, init := trace[|trace| - 1], trace[..|trace| - 1];
    if !((c.ClaimEgressIP? || c.ReleaseEgressIP?) && c.node == node) {
      ClaimedHosts(init, node);
    }
  }

  /** A node that hosts something has been called about. */
  lemma {:induction false} HostsIsCalledAbout(trace: seq<Call>, node: string, ip: string)
    requires Run(trace).Some? && ip in Run(trace).value.held && Run(trace).value.held[ip].node == node
    ensures LastAbout(trace, node).Some?
    decreases |trace|
  {
    var c, init := trace[|trace| - 1], trace[..|trace| - 1];
    if !((c.ClaimEgressIP? || c.ReleaseEgressIP?) && c.node == node) {
      HostsIsCalledAbout(init, node, ip);
    }
  }

  /** The monitor watches only nodes that host an address.  It misses one that does
      exactly when the last call about that node was a release. */
  lemma MonitoringIsExact(trace: seq<Call>, node: string)
    requires Run(trace).Some?
    ensures LastIsClaim(trace, node) ==> Hosts(Run(trace).value, node)
    ensures (LastIsClaim(trace, node) <==> Hosts(Run(trace).value, node))
            <==> !(Hosts(Run(trace).value, node)
                   && LastAbout(trace, node).Some? && LastAbout(trace, node).value.ReleaseEgressIP?)
  {
    hide Run, LastAbout;
    if LastIsClaim(trace, node) {
      ClaimedHosts(trace, node);
    }
    if ip :| ip in Run(trace).value.held && Run(trace).value.held[ip].node == node {
      HostsIsCalledAbout(trace, node, ip);
    }
    assert LastAbout(trace, node).Some? ==>
          LastAbout(trace, node).value.ClaimEgressIP? || LastAbout(trace, node).value.ReleaseEgressIP?
    by { LastIsAbout(trace, node); }
  }

  lemma {:induction false} LastIsAbout(trace: seq<Call>, node: string)
    ensures LastAbout(trace, node).Some? ==>
              var c := LastAbout(trace, node).value; (c.ClaimEgressIP? || c.ReleaseEgressIP?) && c.node == node
    decreases |trace|
  {
    if trace != [] {
      LastIsAbout(trace[..|trace| - 1], node);
    }
  }

  /** A release leaves the monitoring of its node right iff it released the last address there. */
  lemma ReleaseKeepsMonitoring(trace: seq<Call>, ip: string, node: string)
    requires Run(trace).Some? && Allowed(Run(trace).value, ReleaseEgressIP(ip, node))
    ensures var w, trace' := Run(trace).value, trace + [ReleaseEgressIP(ip, node)];
            && Run(trace').Some?
            && ((LastIsClaim(trace', node) <==> Hosts(Run(trace').value, node))
                <==> forall other | other in w.held && other != ip :: w.held[other].node != node)
  {
    var c := ReleaseEgressIP(ip, node);
    RunSnoc(trace, c);
    assert (trace + [c])[..|trace|] == trace;
    assert LastAbout(trace + [c], node) == Some(c);
    var w, w' := Run(trace).value, Apply(Run(trace).value, c);
    assert forall other | other in w.held && other != ip :: other in w'.held && w'.held[other] == w.held[other];
  }

  /** An address held on a node is dropped by calls about that address only: the last
      call about the node is then a release, and other addresses are held as before. */
  lemma {:induction false} DroppedIsReleased(before: seq<Call>, after: seq<Call>, ip: string, node: string)
    requires Run(before).Some? && Run(after).Some? && Touches(before, after, {ip})
    requires ip in Run(before).value.held && Run(before).value.held[ip].node == node
    ensures var held := Run(after).value.held; LastIsRelease(after, node) || (ip in held && held[ip].node == node)
    ensures forall other | other != ip ::
              && (other in Run(after).value.held <==> other in Run(before).value.held)
              && (other in Run(before).value.held ==> Run(after).value.held[other] == Run(before).value.held[other])
    decreases |after|
  {
    hide LastAbout;
    if after != before {
      var c, init := after[|after| - 1], after[..|after| - 1];
      assert before <= init;
      assert forall i | |before| <= i < |init| :: init[i] == after[i];
      DroppedIsReleased(before, init, ip, node);
      LastAboutSnoc(after, node);
      assert after[|after| - 1] == c;
    }
  }

  ghost predicate LastIsRelease(trace: seq<Call>, node: string) {
    LastAbout(trace, node).Some? && LastAbout(trace, node).value.ReleaseEgressIP?
  }

  lemma LastAboutSnoc(trace: seq<Call>, node: string)
    requires trace != []
    ensures var c := trace[|trace| - 1];
            LastAbout(trace, node) ==
            if (c.ClaimEgressIP? || c.ReleaseEgressIP?) && c.node == node then Some(c)
            else LastAbout(trace[..|trace| - 1], node)
  {
  }

  /** Two addresses on one node, one released: the node still hosts the other and is not monitored. */
  lemma MonitoringCanStopEarly()
    ensures var trace := [ClaimEgressIP(1, "a", "n"), ClaimEgressIP(2, "b", "n"), ReleaseEgressIP("a", "n")];
            Run(trace).Some? && Hosts(Run(trace).value, "n") && !LastIsClaim(trace, "n")
  {
    var c1, c2, c3 := ClaimEgressIP(1, "a", "n"), ClaimEgressIP(2, "b", "n"), ReleaseEgressIP("a", "n");
    RunSnoc([], c1);
    assert [] + [c1] == [c1] && [c1] + [c2] == [c1, c2] && [c1, c2] + [c3] == [c1, c2, c3];
    RunSnoc([c1], c2);
    RunSnoc([c1, c2], c3);
    assert "b" in Run([c1, c2, c3]).value.held;
  }

  class EgressIPWatcher {
    const host: Host
    var iptablesMark: map<string, nat>
    var table100: set<Flow<Exit>>
    var monitored: set<string>

    ghost var trace: seq<Call>

    /** Marks, flows and monitored nodes are functions of the calls made so far. */
    ghost predicate Valid()
      reads this
    {
      && Run(trace).Some?
      && iptablesMark == MarksFor(host, Run(trace).value.held)
      && table100 == TableFor(host, Run(trace).value.routes)
      && (forall n {:trigger n in monitored} :: n in monitored <==> n != host.localIP && LastIsClaim(trace, n))
    }

    constructor (h: Host)
      ensures Valid() && host == h && trace == []
    {
      host, iptablesMark, table100, monitored := h, map[], FixedFlows(h), {};
      trace := [];
    }

    ghost predicate Expects(c: Call)
      reads this
    {
      Valid() && Allowed(Run(trace).value, c)
    }

    method ClaimEgressIP(vnid: nat, ip: string, node: string)
      requires Expects(Call.ClaimEgressIP(vnid, ip, node))
      modifies this
      ensures Valid() && trace == old(trace) + [Call.ClaimEgressIP(vnid, ip, node)]
    {
      hide MarkForVNID, MarksFor, TableFor, Run, LastIsClaim;
      ghost var c := Call.ClaimEgressIP(vnid, ip, node);
      ghost var w := Run(trace).value;
      MarksClaim(host, w.held, ip, vnid, node);
      if node == host.localIP {
        iptablesMark := iptablesMark[ip := MarkForVNID(vnid, host.masqueradeBit)];
      } else {
        monitored := monitored + {node};
      }
      RunSnoc(trace, c);
      LastSnoc(trace, c);
      trace := trace + [c];
    }

    method ReleaseEgressIP(ip: string, node: string)
      requires Expects(Call.ReleaseEgressIP(ip, node))
      modifies this
      ensures Valid() && trace == old(trace) + [Call.ReleaseEgressIP(ip, node)]
    {
      hide MarkForVNID, MarksFor, TableFor, Run, LastIsClaim;
      ghost var c := Call.ReleaseEgressIP(ip, node);
      ghost var w := Run(trace).value;
      MarksRelease(host, w.held, ip);
      if node == host.localIP {
        iptablesMark := iptablesMark - {ip};
      } else {
        monitored := monitored - {node};
      }
      RunSnoc(trace, c);
      LastSnoc(trace, c);
      trace := trace + [c];
    }

    method SetNamespaceEgressNormal(vnid: nat)
      requires Expects(SetNormal(vnid))
      modifies this
      ensures Valid() && trace == old(trace) + [SetNormal(vnid)]
    {
      hide MarksFor, TableFor, DeleteReg0, Run, LastIsClaim;
      Rerouted(host, Run(trace).value.routes, vnid, Normal);
      RunSnoc(trace, SetNormal(vnid));
      LastSnoc(trace, SetNormal(vnid));
      table100 := DeleteReg0(table100, vnid);
      trace := trace + [SetNormal(vnid)];
    }

    method SetNamespaceEgressDropped(vnid: nat)
      requires Expects(SetDropped(vnid))
      modifies this
      ensures Valid() && trace == old(trace) + [SetDropped(vnid)]
    {
      hide MarksFor, TableFor, DeleteReg0, AddFlow, Run, LastIsClaim;
      Rerouted(host, Run(trace).value.routes, vnid, Dropped);
      RunSnoc(trace, SetDropped(vnid));
      LastSnoc(trace, SetDropped(vnid));
      table100 := AddFlow(DeleteReg0(table100, vnid), DropFlow(vnid));
      trace := trace + [SetDropped(vnid)];
    }

    method SetNamespaceEgressViaEgressIP(vnid: nat, ip: string, node: string)
      requires Expects(SetVia(vnid, ip, node))
      modifies this
      ensures Valid() && trace == old(trace) + [SetVia(vnid, ip, node)]
    {
      hide MarkForVNID, TableFor, DeleteReg0, AddFlow, Run, LastIsClaim;
      var mark := if ip in iptablesMark then Some(iptablesMark[ip]) else None;
      Rerouted(host, Run(trace).value.routes, vnid, Via(ip, node));
      RunSnoc(trace, SetVia(vnid, ip, node));
      LastSnoc(trace, SetVia(vnid, ip, node));
      table100 := AddFlow(DeleteReg0(table100, vnid), ViaFlow(host, vnid, node, mark));
      trace := trace + [SetVia(vnid, ip, node)];
    }

    /** A node has nothing to do for a change of CIDRs. */
    method UpdateEgressCIDRs()
      requires Valid()
      modifies this
      ensures Valid() && trace == old(trace) + [Call.UpdateEgressCIDRs]
    {
      hide MarksFor, TableFor, Run, LastIsClaim;
      RunSnoc(trace, Call.UpdateEgressCIDRs);
      LastSnoc(trace, Call.UpdateEgressCIDRs);
      trace := trace + [Call.UpdateEgressCIDRs];
    }
  }

  lemma LastSnoc(trace: seq<Call>, c: Call)
    ensures forall node {:trigger LastIsClaim(trace + [c], node)} :: LastIsClaim(trace + [c], node) <==>
              if (c.ClaimEgressIP? || c.ReleaseEgressIP?) && c.node == node then c.ClaimEgressIP?
              else LastIsClaim(trace, node)
  {
    assert (trace + [c])[..|trace|] == trace;
  }

  /** Deleting the flows of a VNID and adding the flow of its new route gives the table of the new routes. */
  lemma Rerouted(h: Host, routes: map<nat, Route>, v: nat, r: Route)
    ensures r == Normal ==> DeleteReg0(TableFor(h, routes), v) == TableFor(h, routes - {v})
    ensures r != Normal ==>
              AddFlow(DeleteReg0(TableFor(h, routes), v), RouteFlow(h, v, r)) == TableFor(h, routes[v := r])
  {
    hide FixedFlows, RouteFlow, TableFor, DeleteReg0, AddFlow;
    Unrouted(h, routes, v);
    if r != Normal {
      Routed(h, routes - {v}, v, r);
      assert (routes - {v})[v := r] == routes[v := r];
    }
  }

  lemma Unrouted(h: Host, routes: map<nat, Route>, v: nat)
    ensures DeleteReg0(TableFor(h, routes), v) == TableFor(h, routes - {v})
  {
    hide FixedFlows, RouteFlow, ExitFor, Matches;
    FixedFlowsAnyVNID(h);
    var t, t', rest := TableFor(h, routes), TableFor(h, routes - {v}), routes - {v};
    forall u: nat, q ensures RouteFlow(h, u, q).when.reg0 == Some(u) { RouteFlowsByVNID(h, u, q); }
    forall f | f in t && f.when.reg0 != Some(v) ensures f in t' {
      if f !in FixedFlows(h) {
        var u :| u in routes && routes[u] != Normal && f == RouteFlow(h, u, routes[u]);
        assert u in rest && rest[u] == routes[u];
      }
    }
    forall f | f in t' ensures f in t && f.when.reg0 != Some(v) {
      if f !in FixedFlows(h) {
        var u :| u in rest && rest[u] != Normal && f == RouteFlow(h, u, rest[u]);
        assert u in routes && rest[u] == routes[u];
      }
    }
  }

  lemma Routed(h: Host, routes: map<nat, Route>, v: nat, r: Route)
    requires v !in routes && r != Normal
    ensures AddFlow(TableFor(h, routes), RouteFlow(h, v, r)) == TableFor(h, routes[v := r])
  {
    hide FixedFlows, RouteFlow, ExitFor, Matches;
    FixedFlowsAnyVNID(h);
    var t, t', more := TableFor(h, routes), TableFor(h, routes[v := r]), routes[v := r];
    forall u: nat, q ensures RouteFlow(h, u, q).when.reg0 == Some(u) { RouteFlowsByVNID(h, u, q); }
    assert RouteFlow(h, v, more[v]) in t';
    forall f | f in t ensures f in t' && f.when.reg0 != Some(v) {
      if f !in FixedFlows(h) {
        var u :| u in routes && routes[u] != Normal && f == RouteFlow(h, u, routes[u]);
        assert u in more && more[u] == routes[u];
      }
    }
    forall f | f in t' ensures f in t || f == RouteFlow(h, v, r) {
      if f !in FixedFlows(h) {
        var u :| u in more && more[u] != Normal && f == RouteFlow(h, u, more[u]);
        assert u == v || (u in routes && routes[u] == more[u]);
      }
    }
  }

  lemma FixedFlowsAnyVNID(h: Host)
    ensures forall f | f in FixedFlows(h) :: f.when.reg0 == None
  {
  }

  /** After any allowed trace of calls, the node's marks, table 100 and monitored
      nodes are what the trace says. */
  method Follow(h: Host, calls: seq<Call>) returns (e: EgressIPWatcher)
    requires Run(calls).Some?
    ensures fresh(e) && e.Valid() && e.host == h && e.trace == calls
    ensures e.table100 == TableFor(h, Run(calls).value.routes) && e.iptablesMark == MarksFor(h, Run(calls).value.held)
  {
    hide Run, TableFor, MarksFor, LastIsClaim, Allowed;
    e := new EgressIPWatcher(h);
    for i := 0 to |calls|
      invariant fresh(e) && e.Valid() && e.host == h && e.trace == calls[..i]
    {
      NextIsAllowed(calls, i);
      Handle(e, calls[i]);
      assert calls[..i] + [calls[i]] == calls[..i + 1];
    }
    assert calls[..|calls|] == calls;
  }

  lemma NextIsAllowed(calls: seq<Call>, i: nat)
    requires Run(calls).Some? && i < |calls|
    ensures Run(calls[..i]).Some? && Allowed(Run(calls[..i]).value, calls[i])
  {
    RunPrefix(calls, i + 1);
    assert calls[..i + 1][..i] == calls[..i];
  }

  method Handle(e: EgressIPWatcher, c: Call)
    requires e.Expects(c)
    modifies e
    ensures e.Valid() && e.trace == old(e.trace) + [c]
  {
    hide Run, TableFor, MarksFor, LastIsClaim, Allowed, Apply;
    match c
    case ClaimEgressIP(vnid, ip, node) => e.ClaimEgressIP(vnid, ip, node);
    case ReleaseEgressIP(ip, node) => e.ReleaseEgressIP(ip, node);
    case SetNormal(vnid) => e.SetNamespaceEgressNormal(vnid);
    case SetDropped(vnid) => e.SetNamespaceEgressDropped(vnid);
    case SetVia(vnid, ip, node) => e.SetNamespaceEgressViaEgressIP(vnid, ip, node);
    case UpdateEgressCIDRs => e.UpdateEgressCIDRs();
  }
}
