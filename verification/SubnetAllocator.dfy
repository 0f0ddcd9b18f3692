/** Allocation of host subnets from one cluster network, and the validation of
    cluster networks. */
module SubnetAllocator {
  import opened Wrappers
  import opened Cidr
  import opened SubnetBits

  /** The number that step `i` of a search from `next` looks at. */
  function Nth(next: nat, i: nat, num: nat): nat
    requires num > 0
  {
    (i + next) % num
  }

  /** A search of `num` steps looks at every number. */
  lemma SearchIsComplete(next: nat, num: nat, n: nat) returns (i: nat)
    requires next <= num && n < num
    ensures i < num && Nth(next, i, num) == n
  {
    if n >= next {
      i := n - next;
      SmallMod(n, num);
    } else {
      i := n + num - next;
      WrapsTo(n, num);
    }
  }

  /** From `next` up, and then from 0 up, `m` comes before `n`; `next` may be `num`, which stands for 0. */
  ghost predicate Before(next: nat, m: nat, n: nat, num: nat) {
    var start := if next == num then 0 else next;
    if start <= n then start <= m < n else m >= start || m < n
  }

  lemma SearchedBefore(next: nat, i: nat, m: nat, num: nat) returns (j: nat)
    requires next <= num && i < num && m < num && Before(next, m, Nth(next, i, num), num)
    ensures j < i && Nth(next, j, num) == m
  {
    var start := if next == num then 0 else next;
    assert Nth(next, i, num) == if start + i < num then start + i else start + i - num by {
      if next == num {
        WrapsTo(i, num);
      } else if next + i < num {
        SmallMod(next + i, num);
      } else {
        WrapsTo(next + i - num, num);
      }
    }
    j := if m >= start then m - start else m + num - start;
    if next == num { WrapsTo(j, num); } else if m >= start { SmallMod(m, num); } else { WrapsTo(m, num); }
  }

  class Allocator {
    const layout: Layout
    var next: nat
    /** Subnets by their CIDR; a released one stays with value false. */
    var allocMap: map<Cidr, bool>

    ghost predicate Valid()
      reads this
    {
      IsLayout(layout) && layout.hostBits <= 32 - layout.network.len && next <= Pow2(SubnetBitsOf(layout))
    }

    ghost function Live(): set<Cidr>
      reads this
    {
      set c | c in allocMap && allocMap[c]
    }

    constructor (l: Layout)
      requires IsLayout(l)
      ensures Valid() && layout == l && Live() == {} && next == 0
    {
      layout, next, allocMap := l, 0, map[];
      new;
      LayoutFits(l);
    }

    /** The first free subnet at or after `next`, in cyclic order of numbers. */
    method AllocateNetwork() returns (r: Option<Cidr>)
      requires Valid()
      modifies this
      ensures Valid()
      ensures r.None? ==> Live() == old(Live()) && next == 0 && forall c | IsSubnet(layout, c) :: c in Live()
      ensures r.Some? ==> IsSubnet(layout, r.value) && r.value !in old(Live()) && Live() == old(Live()) + {r.value}
      ensures r.Some? ==>
                var num := Pow2(SubnetBitsOf(layout));
                exists n: nat | n < num ::
                  && next == n + 1 && r.value == SubnetAt(layout, n)
                  && forall m: nat | m < num && Before(old(next), m, n, num) :: SubnetAt(layout, m) in old(Live())
    {
      hide Pow2, Address, IsLayout, IsSubnet;
      LayoutFits(layout);
      var num := Pow2(SubnetBitsOf(layout));
      NumFits(layout);
      var i: nat := 0;
      while i < num
        invariant i <= num && next == old(next) && allocMap == old(allocMap)
        invariant forall j: nat | j < i :: SubnetAt(layout, Nth(old(next), j, num)) in Live()
      {
        SmallMod(i + next, Pow2(32));
        var n := (i + next) % Pow2(32) % num;
        assert n == Nth(next, i, num);
        var c := SubnetAt(layout, n);
        NumberIsSubnet(layout, n);
        if !(c in allocMap && allocMap[c]) {
          forall m: nat | m < num && Before(next, m, n, num) ensures SubnetAt(layout, m) in old(Live()) {
            var j := SearchedBefore(next, i, m, num);
          }
          allocMap := allocMap[c := true];
          next := n + 1;
          return Some(c);
        }
        i := i + 1;
      }
      next := 0;
      forall c | IsSubnet(layout, c) ensures c in Live() {
        var n := SubnetHasNumber(layout, c);
        var j := SearchIsComplete(old(next), num, n);
      }
      return None;
    }

    method MarkAllocatedNetwork(c: Cidr) returns (ok: bool)
      requires Valid()
      modifies this`allocMap
      ensures Valid() && ok == Contains(layout.network, c.addr)
      ensures Live() == if ok then old(Live()) + {c} else old(Live())
    {
      if !Contains(layout.network, c.addr) {
        return false;
      }
      if !(c in allocMap && allocMap[c]) {
        allocMap := allocMap[c := true];
      }
      return true;
    }

    method ReleaseNetwork(c: Cidr) returns (ok: bool)
      requires Valid()
      modifies this`allocMap
      ensures Valid() && ok == (Contains(layout.network, c.addr) && c in old(Live()))
      ensures Live() == if ok then old(Live()) - {c} else old(Live())
    {
      if !Contains(layout.network, c.addr) {
        return false;
      }
      if !(c in allocMap && allocMap[c]) {
        return false;
      }
      allocMap := allocMap[c := false];
      return true;
    }
  }

  /** The cyclic index never overflows 32 bits. */
  lemma NumFits(l: Layout)
    requires 0 < l.hostBits <= 32 - l.network.len
    ensures 2 * Pow2(SubnetBitsOf(l)) <= Pow2(32)
  {
    Pow2Grows(SubnetBitsOf(l) + 1, 32);
  }

  // ---- cluster networks -----------------------------------------------------------

  ghost predicate Share(a: Cidr, b: Cidr) {
    exists x: nat :: Contains(a, x) && Contains(b, x)
  }

  /** A configured network; the CIDR is None when it does not parse. */
  datatype ClusterNetwork = ClusterNetwork(cidr: Option<Cidr>, hostSubnetLength: nat)

  ghost predicate Parsed(nets: seq<ClusterNetwork>) {
    forall i | 0 <= i < |nets| && nets[i].cidr.Some? :: IsBlock(nets[i].cidr.value)
  }

  /** The network parses, has a usable host length, and shares no address with the service network. */
  ghost predicate Usable(cn: ClusterNetwork, service: Option<Cidr>) {
    && cn.cidr.Some? && 2 <= cn.hostSubnetLength && cn.hostSubnetLength + cn.cidr.value.len <= 32
    && (service.Some? ==> !Share(cn.cidr.value, service.value))
  }

  ghost predicate Apart(nets: seq<ClusterNetwork>) {
    forall i, j {:trigger nets[i], nets[j]} | 0 <= i < j < |nets| && nets[i].cidr.Some? && nets[j].cidr.Some? ::
      !Share(nets[i].cidr.value, nets[j].cidr.value)
  }

  /** Counts the errors: none are found exactly when every network is usable and no two share an address. */
  method ValidateClusterNetworks(nets: seq<ClusterNetwork>, service: Option<Cidr>) returns (errs: nat)
    requires Parsed(nets) && (service.Some? ==> IsBlock(service.value))
    ensures errs == 0 <==> (forall i | 0 <= i < |nets| :: Usable(nets[i], service)) && Apart(nets)
  {
    hide Share, Contains, Usable;
    errs := 0;
    var tested: seq<Cidr> := [];
    for i := 0 to |nets|
      invariant errs == 0 <==> (forall k | 0 <= k < i :: Usable(nets[k], service)) && Apart(nets[..i])
      invariant forall c {:trigger c in tested} :: c in tested <==> exists k | 0 <= k < i :: nets[k].cidr == Some(c)
    {
      ghost var before := errs;
      var cn := nets[i];
      if cn.cidr.None? {
        errs := errs + 1;
        assert !Usable(cn, service) by { UsableIs(cn, service); }
        assert nets[..i + 1] == nets[..i] + [cn];
        continue;
      }
      var c := cn.cidr.value;
      if cn.hostSubnetLength > 32 - c.len {
        errs := errs + 1;
      } else if cn.hostSubnetLength < 2 {
        errs := errs + 1;
      }
      var clashes := Clashes(c, tested);
      errs := errs + clashes;
      ApartSnoc(nets, i, tested);
      tested := tested + [c];
      if service.Some? && CIDRsOverlap(c, service.value) {
        errs := errs + 1;
      }
      UsableIs(cn, service);
      if service.Some? {
        OverlapIsShared(c, service.value);
        ShareIs(c, service.value);
      }
      assert errs == before <==> Usable(cn, service) && clashes == 0;
    }
    assert nets[..|nets|] == nets;
  }

  lemma UsableIs(cn: ClusterNetwork, service: Option<Cidr>)
    ensures Usable(cn, service) <==>
              && cn.cidr.Some? && 2 <= cn.hostSubnetLength && cn.hostSubnetLength + cn.cidr.value.len <= 32
              && (service.Some? ==> !Share(cn.cidr.value, service.value))
  {
    hide Share;
  }

  lemma ShareIs(a: Cidr, b: Cidr)
    ensures Share(a, b) <==> exists x: nat :: Contains(a, x) && Contains(b, x)
  {
    hide Contains;
  }

  lemma ApartSnoc(nets: seq<ClusterNetwork>, i: nat, tested: seq<Cidr>)
    requires i < |nets| && nets[i].cidr.Some?
    requires forall c {:trigger c in tested} :: c in tested <==> exists k | 0 <= k < i :: nets[k].cidr == Some(c)
    ensures Apart(nets[..i + 1]) <==> Apart(nets[..i]) && forall c | c in tested :: !Share(nets[i].cidr.value, c)
  {
    hide Share;
    var all := nets[..i + 1];
    assert forall k | 0 <= k < i :: all[k] == nets[..i][k];
    forall a: Cidr, b: Cidr ensures Share(a, b) == Share(b, a) { ShareIs(a, b); ShareIs(b, a); }
    if Apart(nets[..i]) && forall c | c in tested :: !Share(nets[i].cidr.value, c) {
      forall j | 0 <= j < i && nets[j].cidr.Some? ensures !Share(nets[j].cidr.value, nets[i].cidr.value) {
        assert nets[j].cidr.value in tested;
      }
    }
    if Apart(all) {
      forall c | c in tested ensures !Share(nets[i].cidr.value, c) {
        var k :| 0 <= k < i && nets[k].cidr == Some(c);
        assert all[k] == nets[k] && all[i] == nets[i];
      }
      forall j, k | 0 <= j < k < i && nets[j].cidr.Some? && nets[k].cidr.Some?
        ensures !Share(nets[j].cidr.value, nets[k].cidr.value)
      {
        assert all[j] == nets[j] && all[k] == nets[k];
      }
    }
  }

  method Clashes(c: Cidr, tested: seq<Cidr>) returns (n: nat)
    requires IsBlock(c) && forall d | d in tested :: IsBlock(d)
    ensures n == 0 <==> forall d | d in tested :: !Share(c, d)
  {
    hide Contains, Share, IsBlock;
    n := 0;
    for k := 0 to |tested|
      invariant n == 0 <==> forall d | d in tested[..k] :: !Share(c, d)
    {
      OverlapIsShared(c, tested[k]);
      ShareIs(c, tested[k]);
      if CIDRsOverlap(c, tested[k]) {
        n := n + 1;
      }
      assert tested[..k + 1] == tested[..k] + [tested[k]];
    }
    assert tested[..|tested|] == tested;
  }
}
