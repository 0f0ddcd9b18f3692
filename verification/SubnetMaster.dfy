/** The master's view of subnet allocation: an allocator for each cluster network. */
module SubnetMaster {
  import opened Wrappers
  import opened Cidr
  import opened SubnetBits
  import opened SubnetAllocator

  /** Subnets of one network are equal or share nothing; networks without overlap have no common subnet addresses. */
  lemma SubnetsAreDisjoint(l: Layout, c: Cidr, k: Layout, d: Cidr)
    requires IsLayout(l) && IsLayout(k) && IsSubnet(l, c) && IsSubnet(k, d)
    requires (l == k && c != d) || !CIDRsOverlap(l.network, k.network)
    ensures !Share(c, d)
  {
    hide MakeLayout, Pow2, IsBlock;
    if x: nat :| Contains(c, x) && Contains(d, x) {
      if l == k {
        SameBlock(c, d, x);
      } else {
        SubnetInside(l, c, x);
        SubnetInside(k, d, x);
        OverlapIsShared(l.network, k.network);
      }
    }
  }

  lemma SameBlock(c: Cidr, d: Cidr, x: nat)
    requires IsBlock(c) && IsBlock(d) && c.len == d.len && Contains(c, x) && Contains(d, x)
    ensures c == d
  {
    hide Pow2, Contains;
    ContainsIsInterval(c, x);
    ContainsIsInterval(d, x);
    ContainsIsInterval(c, d.addr);
    ContainsIsInterval(d, c.addr);
    SameStart(c.addr, d.addr, Size(c), x);
  }

  lemma SameStart(a: nat, b: nat, d: nat, x: nat)
    requires d > 0 && a % d == 0 && b % d == 0 && a <= x < a + d && b <= x < b + d
    ensures a == b
  {
    SameQuotient(a, d, x);
    SameQuotient(b, d, x);
  }

  /** An address of a subnet is an address of its network. */
  lemma SubnetInside(l: Layout, c: Cidr, x: nat)
    requires IsLayout(l) && IsSubnet(l, c) && Contains(c, x)
    ensures Contains(l.network, x)
  {
    hide Pow2, MakeLayout, Address, Times, Div;
    LayoutFits(l);
    var n := SubnetHasNumber(l, c);
    AddressIsPlaced(l, n);
    PlaceFits(l, n);
    PowTimes(SubnetBitsOf(l), l.hostBits);
    StepBelow(Place(l, n), Pow2(SubnetBitsOf(l)), Pow2(l.hostBits));
    ContainsIsInterval(c, x);
    ContainsIsInterval(l.network, x);
  }

  /** Different allocators, for networks without overlap, with only their own subnets live. */
  ghost predicate Ready(sas: seq<Allocator>)
    reads sas
  {
    && (forall j, k {:trigger sas[j], sas[k]} | 0 <= j < |sas| && 0 <= k < |sas| && j != k ::
          sas[j] != sas[k] && !CIDRsOverlap(sas[j].layout.network, sas[k].layout.network))
    && (forall k {:trigger sas[k]} | 0 <= k < |sas| :: sas[k].Valid())
    && (forall k, c {:trigger c in sas[k].Live()} | 0 <= k < |sas| && c in sas[k].Live() :: IsSubnet(sas[k].layout, c))
  }

  /** In a ready state the live subnets are pairwise disjoint. */
  lemma LiveAreDisjoint(sas: seq<Allocator>, j: nat, c: Cidr, k: nat, d: Cidr)
    requires Ready(sas) && j < |sas| && k < |sas| && c in sas[j].Live() && d in sas[k].Live() && c != d
    ensures !Share(c, d)
  {
    hide Share, IsLayout, IsSubnet, CIDRsOverlap;
    SubnetsAreDisjoint(sas[j].layout, c, sas[k].layout, d);
  }

  /** An address lies in at most one network. */
  lemma OneNetwork(sas: seq<Allocator>, j: nat, k: nat, x: nat)
    requires Ready(sas) && j < |sas| && k < |sas|
    requires Contains(sas[j].layout.network, x) && Contains(sas[k].layout.network, x)
    ensures j == k
  {
    hide Contains, IsSubnet;
    OverlapIsShared(sas[j].layout.network, sas[k].layout.network);
  }

  ghost predicate Fits(cn: ClusterNetwork, l: Layout) {
    cn.cidr == Some(l.network) && cn.hostSubnetLength == l.hostBits
  }

  /** One allocator per validated network. */
  method InitSubnetAllocators(nets: seq<ClusterNetwork>) returns (sas: seq<Allocator>)
    requires Parsed(nets) && Apart(nets) && forall i | 0 <= i < |nets| :: Usable(nets[i], None)
    ensures Ready(sas) && |sas| == |nets|
    ensures forall k | 0 <= k < |sas| :: fresh(sas[k]) && sas[k].Live() == {} && Fits(nets[k], sas[k].layout)
  {
    hide Share, Contains, IsSubnet, IsBlock, IsLayout, Usable, CIDRsOverlap, Apart;
    sas := [];
    for i := 0 to |nets|
      invariant |sas| == i
      invariant forall k {:trigger sas[k]} | 0 <= k < i ::
          fresh(sas[k]) && sas[k].Valid() && sas[k].Live() == {} && Fits(nets[k], sas[k].layout)
      invariant forall j, k {:trigger sas[j], sas[k]} | 0 <= j < k < i :: sas[j] != sas[k]
    {
      UsableIs(nets[i], None);
      var l := LayoutOf(nets[i]);
      var sa := new Allocator(l);
      sas := sas + [sa];
    }
    forall j, k | 0 <= j < |sas| && 0 <= k < |sas| && j != k
      ensures sas[j] != sas[k] && !CIDRsOverlap(sas[j].layout.network, sas[k].layout.network)
    {
      assert Fits(nets[j], sas[j].layout) && Fits(nets[k], sas[k].layout);
      NetworksApart(nets, j, k);
    }
  }

  method LayoutOf(cn: ClusterNetwork) returns (l: Layout)
    requires Usable(cn, None) && IsBlock(cn.cidr.value)
    ensures IsLayout(l) && l.network == cn.cidr.value && l.hostBits == cn.hostSubnetLength
  {
    hide Pow2, Shl, Share, Contains;
    var r := MakeLayout(cn.cidr.value, cn.hostSubnetLength);
    l := r.value;
  }

  lemma NetworksApart(nets: seq<ClusterNetwork>, j: nat, k: nat)
    requires Parsed(nets) && Apart(nets) && j < |nets| && k < |nets|
    requires j != k && nets[j].cidr.Some? && nets[k].cidr.Some?
    ensures !CIDRsOverlap(nets[j].cidr.value, nets[k].cidr.value)
  {
    hide Contains, IsBlock;
    var a, b := nets[j].cidr.value, nets[k].cidr.value;
    OverlapIsShared(a, b);
    if j < k {
      assert !Share(a, b);
    } else {
      assert !Share(b, a);
    }
  }

  /** The allocator whose network contains the subnet's address. */
  method GetSubnetAllocator(sas: seq<Allocator>, c: Cidr) returns (k: Option<nat>)
    requires Ready(sas)
    ensures k.Some? ==> k.value < |sas| && Contains(sas[k.value].layout.network, c.addr)
    ensures k.None? ==> forall j | 0 <= j < |sas| :: !Contains(sas[j].layout.network, c.addr)
  {
    hide Contains;
    for i := 0 to |sas|
      invariant forall j | 0 <= j < i :: !Contains(sas[j].layout.network, c.addr)
    {
      if Contains(sas[i].layout.network, c.addr) {
        return Some(i);
      }
    }
    return None;
  }

  /** A subnet that shares no address with any live one; none only when every
      subnet of every network is live. */
  method AllocateNetwork(sas: seq<Allocator>) returns (r: Option<Cidr>, ghost k: nat)
    requires Ready(sas)
    modifies sas
    ensures Ready(sas)
    ensures r.None? ==> forall j | 0 <= j < |sas| ::
        sas[j].Live() == old(sas[j].Live()) && forall c | IsSubnet(sas[j].layout, c) :: c in sas[j].Live()
    ensures r.Some? ==> k < |sas| && IsSubnet(sas[k].layout, r.value) && r.value !in old(sas[k].Live())
    ensures r.Some? ==> forall j | 0 <= j < k :: forall c | IsSubnet(sas[j].layout, c) :: c in old(sas[j].Live())
    ensures r.Some? ==> forall j | 0 <= j < |sas| ::
        sas[j].Live() == old(sas[j].Live()) + if j == k then {r.value} else {}
    ensures r.Some? ==> forall j, d | 0 <= j < |sas| && d in old(sas[j].Live()) :: !Share(d, r.value)
  {
    hide IsLayout, IsSubnet, Share, Contains;
    k := 0;
    for i := 0 to |sas|
      invariant Ready(sas)
      invariant forall j | 0 <= j < |sas| :: sas[j].Live() == old(sas[j].Live())
      invariant forall j | 0 <= j < i :: forall c | IsSubnet(sas[j].layout, c) :: c in sas[j].Live()
    {
      r := sas[i].AllocateNetwork();
      if r.Some? {
        k := i;
        forall j, d | 0 <= j < |sas| && d in old(sas[j].Live()) ensures !Share(d, r.value) {
          SubnetsAreDisjoint(sas[j].layout, d, sas[i].layout, r.value);
        }
        return;
      }
    }
    r := None;
  }

  /** A release reaches the allocator that issued the subnet, and only that one. */
  method ReleaseNetwork(sas: seq<Allocator>, c: Cidr) returns (ok: bool)
    requires Ready(sas)
    modifies sas
    ensures Ready(sas)
    ensures ok <==> exists j | 0 <= j < |sas| :: c in old(sas[j].Live())
    ensures forall j | 0 <= j < |sas| :: sas[j].Live() == old(sas[j].Live()) - {c}
  {
    hide IsLayout, CIDRsOverlap, Contains;
    var k := GetSubnetAllocator(sas, c);
    forall j | 0 <= j < |sas| && c in sas[j].Live() ensures k == Some(j) {
      assert IsSubnet(sas[j].layout, c);
      if k.Some? {
        OneNetwork(sas, j, k.value, c.addr);
      }
    }
    if k.None? {
      return false;
    }
    ok := sas[k.value].ReleaseNetwork(c);
  }

  // ---- marks of another size --------------------------------------------------------

  /** Down to a multiple of `h`. */
  function Floor(x: nat, h: nat): (r: nat)
    requires h > 0
    ensures r <= x < r + h
  {
    x - x % h
  }

  lemma FloorFits(a: nat, n: nat, h: nat, x: nat)
    requires h > 0 && a % h == 0 && n % h == 0 && a <= x < a + n
    ensures Floor(x, h) % h == 0 && a <= Floor(x, h) && Floor(x, h) + h <= a + n
  {
    var q, p, m := x / h, a / h, n / h;
    DivUnique(Floor(x, h), h, q, 0);
    MulSub(p + m, m, h);
    Steps(q, p, h);
    Steps(q, p + m, h);
  }

  lemma Steps(q: int, p: int, h: nat)
    ensures if q < p then q * h + h <= p * h else p * h <= q * h
  {
    if q < p { MulGrows(q + 1, p, h); } else { MulGrows(p, q, h); }
  }

  lemma MulGrows(i: int, j: int, h: nat)
    requires i <= j
    ensures i * h <= j * h
  {
  }

  /** A block in the network that is no subnet of it shares an address with one that is. */
  lemma WrongSizeMeets(l: Layout, c: Cidr) returns (d: Cidr)
    requires IsLayout(l) && IsBlock(c) && Contains(l.network, c.addr) && !IsSubnet(l, c)
    ensures IsSubnet(l, d) && d != c && Share(c, d)
  {
    hide Pow2, MakeLayout;
    LayoutFits(l);
    var h, n := Pow2(l.hostBits), Size(l.network);
    d := Cidr(Floor(c.addr, h), 32 - l.hostBits);
    WholeSubnets(l);
    NetworkAligned(l.network.addr, n, h);
    ContainsIsInterval(l.network, c.addr);
    FloorFits(l.network.addr, n, h, c.addr);
    ContainsIsInterval(l.network, d.addr);
    ContainsIsInterval(c, c.addr);
    ContainsIsInterval(d, c.addr);
  }

  lemma WholeSubnets(l: Layout)
    requires IsLayout(l)
    ensures l.hostBits <= 32 - l.network.len && Size(l.network) % Pow2(l.hostBits) == 0
  {
    hide Pow2;
    LayoutFits(l);
    Pow2Add(32 - l.network.len - l.hostBits, l.hostBits);
    DivUnique(Size(l.network), Pow2(l.hostBits), Pow2(32 - l.network.len - l.hostBits), 0);
  }

  lemma NetworkAligned(a: nat, n: nat, h: nat)
    requires h > 0 && n > 0 && a % n == 0 && n % h == 0
    ensures a % h == 0
  {
    var q, m := a / n, n / h;
    MulAssoc(q, m, h);
    DivUnique(a, h, q * m, 0);
  }

  /** A live subnet shares an address with another one that is live or can be issued. */
  ghost predicate Clashes(sas: seq<Allocator>)
    reads sas
    requires forall k {:trigger sas[k]} | 0 <= k < |sas| :: sas[k].Valid()
  {
    exists j, k, c, d {:trigger sas[j], sas[k], Share(c, d)} | 0 <= j < |sas| && 0 <= k < |sas| && c != d ::
      c in sas[j].Live() && (d in sas[k].Live() || IsSubnet(sas[k].layout, d)) && Share(c, d)
  }

  lemma ReadyIsClear(sas: seq<Allocator>)
    requires Ready(sas)
    ensures !Clashes(sas)
  {
    hide Share, IsLayout, IsSubnet, CIDRsOverlap;
    forall j, k, c, d | 0 <= j < |sas| && 0 <= k < |sas| && c != d && c in sas[j].Live()
                        && (d in sas[k].Live() || IsSubnet(sas[k].layout, d))
      ensures !Share(c, d)
    {
      SubnetsAreDisjoint(sas[j].layout, c, sas[k].layout, d);
    }
  }

  lemma WrongSizeClashes(sas: seq<Allocator>, k: nat, c: Cidr)
    requires forall j {:trigger sas[j]} | 0 <= j < |sas| :: sas[j].Valid()
    requires k < |sas| && c in sas[k].Live() && IsBlock(c)
    requires Contains(sas[k].layout.network, c.addr) && !IsSubnet(sas[k].layout, c)
    ensures Clashes(sas)
  {
    hide Share, IsLayout, IsSubnet, Contains, IsBlock;
    var d := WrongSizeMeets(sas[k].layout, c);
    assert Share(c, d) && sas[k] == sas[k];
  }

  /** Makes the subnet live in the network that contains its address.  The allocators
      stay ready exactly when it is of the size configured for that network, and
      exactly then no live subnet shares an address with another that is live or can
      be issued. */
  method MarkAllocatedNetwork(sas: seq<Allocator>, c: Cidr) returns (ok: bool)
    requires Ready(sas)
    modifies sas
    ensures Ready(sas) <==> forall j | 0 <= j < |sas| && Contains(sas[j].layout.network, c.addr) ::
        IsSubnet(sas[j].layout, c)
    ensures forall j {:trigger sas[j]} | 0 <= j < |sas| :: sas[j].Valid()
    ensures IsBlock(c) ==> (Ready(sas) <==> !Clashes(sas))
    ensures ok <==> exists j | 0 <= j < |sas| :: Contains(sas[j].layout.network, c.addr)
    ensures forall j | 0 <= j < |sas| ::
              sas[j].Live() == old(sas[j].Live()) + if Contains(sas[j].layout.network, c.addr) then {c} else {}
  {
    hide IsLayout, IsSubnet, CIDRsOverlap, Contains, IsBlock, Clashes;
    var k := GetSubnetAllocator(sas, c);
    if k.None? {
      ReadyIsClear(sas);
      return false;
    }
    forall j | 0 <= j < |sas| && Contains(sas[j].layout.network, c.addr) ensures j == k.value {
      OneNetwork(sas, j, k.value, c.addr);
    }
    ok := sas[k.value].MarkAllocatedNetwork(c);
    assert c in sas[k.value].Live();
    if IsSubnet(sas[k.value].layout, c) {
      ReadyIsClear(sas);
    } else if IsBlock(c) {
      WrongSizeClashes(sas, k.value, c);
    }
  }

  /** A mark of another size is accepted, and a subnet inside it is issued afterwards. */
  method WrongSizeOverlaps() returns (sa: Allocator, r: Option<Cidr>)
    ensures sa.Live() == {Cidr(0, 23), Cidr(0, 24)} && r == Some(Cidr(0, 24)) && Share(Cidr(0, 23), Cidr(0, 24))
  {
    hide Pow2, IsLayout, Share, Contains;
    SmallBlock();
    BothContainZero();
    var cn := ClusterNetwork(Some(Cidr(0, 16)), 8);
    UsableIs(cn, None);
    var l := LayoutOf(cn);
    sa := new Allocator(l);
    var ok := sa.MarkAllocatedNetwork(Cidr(0, 23));
    r := AllocateFirst(sa, Cidr(0, 23));
  }

  datatype Request = Mark(subnet: Cidr) | Allocate | Release(subnet: Cidr)

  /** A marked subnet has the size configured for its network. */
  ghost predicate Configured(nets: seq<ClusterNetwork>, q: Request) {
    q.Mark? ==> IsBlock(q.subnet)
                && forall i | 0 <= i < |nets| && nets[i].cidr.Some? && Contains(nets[i].cidr.value, q.subnet.addr) ::
                  q.subnet.len + nets[i].hostSubnetLength == 32
  }

  datatype Answer = Marked(ok: bool) | Issued(subnet: Option<Cidr>) | Released(ok: bool)

  /** The live subnets after one answered request. */
  function LiveStep(live: set<Cidr>, q: Request, a: Answer): set<Cidr> {
    if q.Mark? && a == Marked(true) then live + {q.subnet}
    else if q.Allocate? && a.Issued? && a.subnet.Some? then live + {a.subnet.value}
    else if q.Release? && a == Released(true) then live - {q.subnet}
    else live
  }

  /** What has been marked and issued and not released since. */
  function LiveAfter(requests: seq<Request>, answers: seq<Answer>): set<Cidr>
    requires |requests| == |answers|
  {
    if requests == [] then {}
    else
      var n := |requests| - 1;
      LiveStep(LiveAfter(requests[..n], answers[..n]), requests[n], answers[n])
  }

  ghost predicate In(cn: ClusterNetwork, c: Cidr) {
    cn.cidr.Some? && Contains(cn.cidr.value, c.addr)
  }

  /** A block of the network, of the size configured for it. */
  ghost predicate BlockOf(cn: ClusterNetwork, c: Cidr) {
    In(cn, c) && IsBlock(c) && c.len + cn.hostSubnetLength == 32
  }

  /** What the master may answer while `live` are the live subnets. */
  ghost predicate Answers(nets: seq<ClusterNetwork>, live: set<Cidr>, q: Request, a: Answer) {
    match q
    case Mark(c) => a.Marked? && (a.ok <==> exists k | 0 <= k < |nets| :: In(nets[k], c))
    case Release(c) => a.Released? && (a.ok <==> c in live)
    case Allocate =>
      a.Issued? &&
      if a.subnet.Some?
      then (exists k | 0 <= k < |nets| ::
          BlockOf(nets[k], a.subnet.value)) && forall d | d in live :: d != a.subnet.value && !Share(d, a.subnet.value)
      else forall k, c | 0 <= k < |nets| && BlockOf(nets[k], c) :: c in live
  }

  /** Each answer was right for the subnets live at its time. */
  ghost predicate AllAnswered(nets: seq<ClusterNetwork>, requests: seq<Request>, answers: seq<Answer>) {
    && |answers| == |requests|
    && forall i {:trigger answers[i]} | 0 <= i < |requests| ::
         Answers(nets, LiveAfter(requests[..i], answers[..i]), requests[i], answers[i])
  }

  lemma NoneAnswered(nets: seq<ClusterNetwork>)
    ensures AllAnswered(nets, [], [])
  {
  }

  lemma AnsweredMore(nets: seq<ClusterNetwork>, requests: seq<Request>, answers: seq<Answer>, q: Request, a: Answer)
    requires AllAnswered(nets, requests, answers) && Answers(nets, LiveAfter(requests, answers), q, a)
    ensures AllAnswered(nets, requests + [q], answers + [a])
    ensures LiveAfter(requests + [q], answers + [a]) == LiveStep(LiveAfter(requests, answers), q, a)
  {
    hide Answers, LiveStep;
    var rs, xs := requests + [q], answers + [a];
    assert rs[..|requests|] == requests && xs[..|requests|] == answers;
    forall i | 0 <= i < |rs| ensures Answers(nets, LiveAfter(rs[..i], xs[..i]), rs[i], xs[i]) {
      if i < |requests| {
        assert rs[..i] == requests[..i] && xs[..i] == answers[..i] && answers[i] == xs[i];
      }
    }
  }

  /** The allocators serve the networks. */
  ghost predicate Fitted(sas: seq<Allocator>, nets: seq<ClusterNetwork>)
    reads sas
  {
    |sas| == |nets| && forall k {:trigger sas[k]} | 0 <= k < |sas| :: Fits(nets[k], sas[k].layout)
  }

  /** `live` are the live subnets of all allocators. */
  ghost predicate Holds(sas: seq<Allocator>, live: set<Cidr>)
    reads sas
  {
    && (forall k, c {:trigger c in sas[k].Live()} | 0 <= k < |sas| && c in sas[k].Live() :: c in live)
    && (forall c {:trigger c in live} | c in live :: exists k :: 0 <= k < |sas| && c in sas[k].Live())
  }

  lemma SubnetIsBlock(l: Layout, cn: ClusterNetwork, c: Cidr)
    requires IsLayout(l) && Fits(cn, l)
    ensures IsSubnet(l, c) <==> BlockOf(cn, c)
  {
    hide MakeLayout, IsBlock, Contains;
    LayoutFits(l);
  }

  method MarkOne(sas: seq<Allocator>, ghost nets: seq<ClusterNetwork>, c: Cidr, ghost live: set<Cidr>)
    returns (a: Answer)
    requires Ready(sas) && Fitted(sas, nets) && Configured(nets, Mark(c)) && Holds(sas, live)
    modifies sas
    ensures Ready(sas) && Fitted(sas, nets) && Holds(sas, LiveStep(live, Mark(c), a)) && Answers(nets, live, Mark(c), a)
  {
    hide IsLayout, IsSubnet, IsBlock, Share, Contains, CIDRsOverlap;
    forall k | 0 <= k < |sas| && Contains(sas[k].layout.network, c.addr) ensures IsSubnet(sas[k].layout, c) {
      SubnetIsBlock(sas[k].layout, nets[k], c);
    }
    assert forall k | 0 <= k < |sas| :: In(nets[k], c) <==> Contains(sas[k].layout.network, c.addr);
    var ok := MarkAllocatedNetwork(sas, c);
    a := Marked(ok);
  }

  /** Serves one request. */
  method Perform(sas: seq<Allocator>, ghost nets: seq<ClusterNetwork>, q: Request, ghost live: set<Cidr>)
    returns (a: Answer)
    requires Ready(sas) && Fitted(sas, nets) && Configured(nets, q) && Holds(sas, live)
    modifies sas
    ensures Ready(sas) && Fitted(sas, nets) && Holds(sas, LiveStep(live, q, a)) && Answers(nets, live, q, a)
  {
    hide IsLayout, IsSubnet, IsBlock, Share, Contains, CIDRsOverlap, BlockOf;
    forall k, c | 0 <= k < |sas| ensures IsSubnet(sas[k].layout, c) <==> BlockOf(nets[k], c) {
      SubnetIsBlock(sas[k].layout, nets[k], c);
    }
    match q
    case Mark(c) =>
      a := MarkOne(sas, nets, c, live);
    case Allocate =>
      var r;
      ghost var k;
      r, k := AllocateNetwork(sas);
      a := Issued(r);
      if r.Some? {
        SharesItself(sas[k].layout, r.value);
        assert BlockOf(nets[k], r.value);
        forall d | d in live ensures d != r.value && !Share(d, r.value) {
          var j :| 0 <= j < |sas| && d in old(sas[j].Live());
        }
      }
    case Release(c) =>
      var ok := ReleaseNetwork(sas, c);
      a := Released(ok);
  }

  lemma SharesItself(l: Layout, c: Cidr)
    requires IsSubnet(l, c)
    ensures Share(c, c)
  {
    hide Size;
    assert Contains(c, c.addr);
  }

  /** Over every run: the live subnets of each network are what was marked and issued in
      it and not released since, and they are pairwise disjoint.  A mark succeeds iff a
      network contains its address; an issued subnet is a block of a network that shares
      no address with a live one, and none is issued only when every block of every
      network is live; a release succeeds iff the subnet is live. */
  method Serve(nets: seq<ClusterNetwork>, requests: seq<Request>) returns (sas: seq<Allocator>, answers: seq<Answer>)
    requires Parsed(nets) && Apart(nets) && forall i | 0 <= i < |nets| :: Usable(nets[i], None)
    requires forall i | 0 <= i < |requests| :: Configured(nets, requests[i])
    ensures Ready(sas) && Fitted(sas, nets) && |answers| == |requests|
    ensures forall k, c | 0 <= k < |sas| :: c in sas[k].Live() <==> c in LiveAfter(requests, answers) && In(nets[k], c)
    ensures AllAnswered(nets, requests, answers)
    ensures forall c, d | c in LiveAfter(requests, answers) && d in LiveAfter(requests, answers) && c != d ::
        !Share(c, d)
  {
    hide Share, Contains, IsSubnet, IsBlock, IsLayout, Usable, Apart, CIDRsOverlap, Parsed, AllAnswered, LiveStep,
         Configured, In;
    sas := InitSubnetAllocators(nets);
    answers := [];
    ghost var live: set<Cidr> := {};
    NoneAnswered(nets);
    for i := 0 to |requests|
      invariant Ready(sas) && Fitted(sas, nets) && (forall k {:trigger sas[k]} | 0 <= k < |sas| :: fresh(sas[k]))
      invariant |answers| == i && live == LiveAfter(requests[..i], answers) && Holds(sas, live)
      invariant AllAnswered(nets, requests[..i], answers)
    {
      var a := Perform(sas, nets, requests[i], live);
      AnsweredMore(nets, requests[..i], answers, requests[i], a);
      assert requests[..i] + [requests[i]] == requests[..i + 1];
      live := LiveStep(live, requests[i], a);
      answers := answers + [a];
    }
    assert requests[..|requests|] == requests;
    HeldInOwn(sas, nets, live);
    HeldAreDisjoint(sas, live);
  }

  lemma HeldInOwn(sas: seq<Allocator>, nets: seq<ClusterNetwork>, live: set<Cidr>)
    requires Ready(sas) && Fitted(sas, nets) && Holds(sas, live)
    ensures forall k, c {:trigger c in sas[k].Live()} | 0 <= k < |sas| ::
        c in sas[k].Live() <==> c in live && In(nets[k], c)
  {
    hide IsLayout, IsBlock, Contains, CIDRsOverlap;
    forall k, c | 0 <= k < |sas| ensures c in sas[k].Live() <==> c in live && In(nets[k], c) {
      assert Fits(nets[k], sas[k].layout);
      if c in sas[k].Live() {
        assert IsSubnet(sas[k].layout, c);
      } else if c in live && In(nets[k], c) {
        var j :| 0 <= j < |sas| && c in sas[j].Live();
        assert IsSubnet(sas[j].layout, c);
        OneNetwork(sas, j, k, c.addr);
      }
    }
  }

  lemma HeldAreDisjoint(sas: seq<Allocator>, live: set<Cidr>)
    requires Ready(sas) && Holds(sas, live)
    ensures forall c, d | c in live && d in live && c != d :: !Share(c, d)
  {
    hide IsLayout, IsBlock, Contains, CIDRsOverlap, IsSubnet, Share;
    forall c, d | c in live && d in live && c != d ensures !Share(c, d) {
      var j :| 0 <= j < |sas| && c in sas[j].Live();
      var k :| 0 <= k < |sas| && d in sas[k].Live();
      LiveAreDisjoint(sas, j, c, k, d);
    }
  }

  lemma SmallBlock()
    ensures IsBlock(Cidr(0, 16)) && IsBlock(Cidr(0, 23)) && IsBlock(Cidr(0, 24))
  {
    Pow2Grows(16, 32);
    Pow2Grows(9, 32);
    Pow2Grows(8, 32);
  }

  lemma BothContainZero()
    ensures Share(Cidr(0, 23), Cidr(0, 24)) && Contains(Cidr(0, 16), 0)
  {
    assert Contains(Cidr(0, 23), 0) && Contains(Cidr(0, 24), 0);
  }

  /** With a live block of another size only, the first subnet is issued. */
  method AllocateFirst(sa: Allocator, c: Cidr) returns (r: Option<Cidr>)
    requires sa.Valid() && sa.layout.network == Cidr(0, 16) && sa.layout.hostBits == 8 && sa.next == 0
    requires sa.Live() == {c} && c.len != 24
    modifies sa
    ensures r == Some(Cidr(0, 24)) && sa.Live() == {c, Cidr(0, 24)}
  {
    hide Pow2, Address, IsLayout, IsSubnet;
    r := sa.AllocateNetwork();
    FirstSubnet(sa.layout);
    SmallMod(0, Pow2(SubnetBitsOf(sa.layout)));
    assert SubnetAt(sa.layout, Nth(0, 0, Pow2(SubnetBitsOf(sa.layout)))) !in {c};
  }

  lemma FirstSubnet(l: Layout)
    requires IsLayout(l) && l.network == Cidr(0, 16) && l.hostBits == 8
    ensures SubnetAt(l, 0) == Cidr(0, 24) && IsSubnet(l, Cidr(0, 24))
  {
    hide Pow2, Address, Times;
    AddressIsPlaced(l, 0);
    StraightLayout(l);
    TimesZero(Pow2(8));
    NumberIsSubnet(l, 0);
  }
}
