/** The numbering of subnets: a subnet number becomes an address by 32-bit
    shifts and masks, which rotate its bits. */
module SubnetBits {
  import opened Wrappers
  import opened Cidr

  // ---- bitwise operations on numbers -------------------------------------------

  function And(x: nat, y: nat): nat {
    if x == 0 || y == 0 then 0 else 2 * And(x / 2, y / 2) + (x % 2) * (y % 2)
  }

  function Or(x: nat, y: nat): nat {
    if x == 0 then y else if y == 0 then x else 2 * Or(x / 2, y / 2) + (if x % 2 == 1 || y % 2 == 1 then 1 else 0)
  }

  function Times(x: nat, y: nat): nat {
    x * y
  }

  function Div(x: nat, d: nat): nat
    requires d > 0
  {
    DivIsNat(x, d);
    x / d
  }

  lemma DivIsNat(x: nat, d: nat)
    requires d > 0
    ensures x / d >= 0
  {
  }

  /** Unsigned 32-bit shifts. */
  function Shl(x: nat, k: nat): nat {
    Times(x, Pow2(k)) % Pow2(32)
  }

  function Shr(x: nat, k: nat): nat {
    Div(x, Pow2(k))
  }

  lemma AndStep(x: nat, d: nat)
    requires d > 0
    ensures And(x, 2 * d - 1) == 2 * And(x / 2, d - 1) + x % 2
  {
    assert (2 * d - 1) / 2 == d - 1 && (2 * d - 1) % 2 == 1;
  }

  lemma {:induction false} AndLowMask(x: nat, m: nat)
    ensures And(x, Pow2(m) - 1) == x % Pow2(m)
  {
    hide And;
    if m == 0 {
      AndZero(x);
    } else {
      AndLowMask(x / 2, m - 1);
      AndStep(x, Pow2(m - 1));
      HalfMod(x, Pow2(m - 1));
    }
  }

  lemma AndZero(x: nat)
    ensures And(x, 0) == 0 && x % 1 == 0
  {
  }

  lemma HalfMod(x: nat, d: nat)
    requires d > 0
    ensures x % (2 * d) == 2 * (x / 2 % d) + x % 2 && x / (2 * d) == x / 2 / d
  {
    var q, r := x / 2 / d, x / 2 % d;
    assert x / 2 == q * d + r;
    assert x == 2 * (x / 2) + x % 2;
    assert q * (2 * d) == 2 * (q * d);
    DivUnique(x, 2 * d, q, 2 * r + x % 2);
  }

  lemma {:induction false} AndShiftedMask(x: nat, y: nat, h: nat)
    ensures And(x, Times(y, Pow2(h))) == Times(And(Div(x, Pow2(h)), y), Pow2(h))
  {
    hide And, Times, Div;
    if h == 0 {
      TimesOne(x, y, And(x, y));
    } else {
      AndShiftedMask(x / 2, y, h - 1);
      TimesDouble(y, Pow2(h - 1));
      AndDouble(x, Times(y, Pow2(h - 1)));
      DivDouble(x, Pow2(h - 1));
      TimesDouble(And(Div(x, Pow2(h)), y), Pow2(h - 1));
    }
  }

  lemma TimesOne(x: nat, y: nat, z: nat)
    ensures Div(x, 1) == x && Times(y, 1) == y && Times(z, 1) == z
  {
  }

  lemma TimesDouble(y: nat, p: nat)
    ensures Times(y, 2 * p) == 2 * Times(y, p)
  {
  }

  lemma DivDouble(x: nat, d: nat)
    requires d > 0
    ensures Div(x, 2 * d) == Div(x / 2, d)
  {
    HalfMod(x, d);
  }

  lemma AndDouble(x: nat, z: nat)
    ensures And(x, 2 * z) == 2 * And(x / 2, z)
  {
    assert 2 * z / 2 == z && 2 * z % 2 == 0;
    if x != 0 && z != 0 {
      assert And(x, 2 * z) == 2 * And(x / 2, z) + (x % 2) * 0;
    }
  }

  /** Or of numbers without common bits is their sum. */
  lemma {:induction false} OrDisjoint(a: nat, k: nat, b: nat)
    requires b < Pow2(k)
    ensures Or(Times(a, Pow2(k)), b) == Times(a, Pow2(k)) + b
  {
    hide Or, Times;
    if k == 0 {
      OrZero(Times(a, 1));
    } else {
      OrDisjoint(a, k - 1, b / 2);
      TimesDouble(a, Pow2(k - 1));
      OrDouble(Times(a, Pow2(k - 1)), b);
    }
  }

  lemma OrZero(x: nat)
    ensures Or(x, 0) == x
  {
  }

  lemma OrDouble(x: nat, b: nat)
    ensures Or(2 * x, b) == 2 * Or(x, b / 2) + b % 2
  {
  }

  // ---- arithmetic of shifts ------------------------------------------------------

  lemma PowTimes(m: nat, n: nat)
    ensures Pow2(m + n) == Times(Pow2(m), Pow2(n))
  {
    Pow2Add(m, n);
  }

  lemma TimesAssoc(x: nat, y: nat, z: nat)
    ensures Times(Times(x, y), z) == Times(x, Times(y, z)) && Times(y, z) == Times(z, y)
  {
    MulAssoc(x, y, z);
  }

  lemma TimesMono(x: nat, y: nat, z: nat)
    requires x < y && z > 0
    ensures Times(x, z) < Times(y, z)
  {
  }

  lemma DivMod(x: nat, d: nat)
    requires d > 0
    ensures x == Times(Div(x, d), d) + x % d && x % d < d
  {
  }

  lemma DivModUnique(x: nat, d: nat, q: nat, r: nat)
    requires x == Times(q, d) + r && r < d
    ensures Div(x, d) == q && x % d == r
  {
    DivUnique(x, d, q, r);
  }

  lemma TimesAdd(x: nat, y: nat, z: nat)
    ensures Times(x + y, z) == Times(x, z) + Times(y, z)
  {
  }

  /** Scaling number and divisor scales the remainder and keeps the quotient. */
  lemma ScaledDivMod(n: nat, p: nat, q: nat)
    requires p > 0 && q > 0
    ensures Times(p, q) > 0 && Times(n, q) % Times(p, q) == Times(n % p, q)
    ensures Div(Times(n, q), Times(p, q)) == Div(n, p)
  {
    hide Times, Div;
    TimesMono(0, p, q);
    assert Times(0, q) == 0 by { TimesZero(q); }
    DivMod(n, p);
    TimesAdd(Times(Div(n, p), p), n % p, q);
    TimesAssoc(Div(n, p), p, q);
    TimesMono(n % p, p, q);
    DivModUnique(Times(n, q), Times(p, q), Div(n, p), Times(n % p, q));
  }

  lemma TimesZero(q: nat)
    ensures Times(0, q) == 0
  {
  }

  lemma DivDiv(x: nat, a: nat, b: nat)
    requires a > 0 && b > 0
    ensures Times(a, b) > 0 && Div(x, Times(a, b)) == Div(Div(x, a), b)
  {
    hide Times, Div;
    TimesMono(0, a, b);
    TimesZero(b);
    var y := Div(x, a);
    DivMod(x, a);
    DivMod(y, b);
    TimesAssoc(Div(y, b), b, a);
    TimesAdd(Times(Div(y, b), b), y % b, a);
    TimesAssoc(Div(y, b), a, b);
    assert Times(y % b, a) + x % a < Times(a, b) by {
      TimesMono(y % b, b, a);
      StepBelow(y % b, b, a);
      TimesAssoc(0, a, b);
    }
    DivModUnique(x, Times(a, b), Div(y, b), Times(y % b, a) + x % a);
  }

  lemma StepBelow(x: nat, y: nat, z: nat)
    requires x < y
    ensures Times(x, z) + z <= Times(y, z)
  {
    if x + 1 < y && z > 0 {
      TimesMono(x + 1, y, z);
    }
    TimesAdd(x, 1, z);
  }

  lemma ModMod(x: nat, a: nat, b: nat)
    requires a > 0 && b > 0
    ensures Times(b, a) > 0 && x % Times(b, a) % a == x % a
  {
    hide Times, Div;
    TimesMono(0, b, a);
    TimesZero(a);
    var m := Times(b, a);
    DivMod(x, m);
    DivMod(x % m, a);
    TimesAssoc(Div(x, m), b, a);
    var q := Times(Div(x, m), b);
    TimesAdd(q, Div(x % m, a), a);
    DivModUnique(x, a, q + Div(x % m, a), x % m % a);
  }

  // ---- rotation -------------------------------------------------------------------

  /** The low `r` bits of a number move up by `l`, and the bits above them to the bottom. */
  function Rotate(n: nat, l: nat, r: nat): nat {
    Times(n % Pow2(r), Pow2(l)) + Div(n, Pow2(r))
  }

  lemma RotateParts(n: nat, l: nat, r: nat)
    requires n < Pow2(l + r)
    ensures Div(n, Pow2(r)) < Pow2(l) && Rotate(n, l, r) < Pow2(l + r)
    ensures Rotate(n, l, r) % Pow2(l) == Div(n, Pow2(r)) && Div(Rotate(n, l, r), Pow2(l)) == n % Pow2(r)
  {
    hide Times, Div, Pow2;
    DivMod(n, Pow2(r));
    PowTimes(l, r);
    PowTimes(r, l);
    DivBelow(n, Pow2(l), Pow2(r));
    DivModUnique(Rotate(n, l, r), Pow2(l), n % Pow2(r), Div(n, Pow2(r)));
    StepBelow(n % Pow2(r), Pow2(r), Pow2(l));
  }

  lemma DivBelow(n: nat, p: nat, d: nat)
    requires d > 0 && n < Times(p, d)
    ensures Div(n, d) < p
  {
    hide Times, Div;
    DivMod(n, d);
    if Div(n, d) > p {
      TimesMono(p, Div(n, d), d);
    }
  }

  /** Rotating by `l` and then by `r` gives the number back. */
  lemma RotateBack(n: nat, l: nat, r: nat)
    requires n < Pow2(l + r)
    ensures Rotate(n, l, r) < Pow2(l + r) && Rotate(Rotate(n, l, r), r, l) == n
  {
    hide Times, Div, Pow2;
    RotateParts(n, l, r);
    DivMod(n, Pow2(r));
  }

  // ---- the shift/mask formula ----------------------------------------------------

  datatype Layout = Layout(network: Cidr, hostBits: nat, leftShift: nat, leftMask: nat, rightShift: nat, rightMask: nat)

  /** The subnet bits reach into the octet above the one they start in, and start inside an octet. */
  predicate Rotated(network: Cidr, hostBits: nat)
    requires 0 < hostBits <= 32 - network.len
  {
    hostBits % 8 != 0 && (hostBits - 1) / 8 != (hostBits + (32 - network.len - hostBits) - 1) / 8
  }

  function MakeLayout(network: Cidr, hostBits: nat): Result<Layout, string>
    requires network.len <= 32
  {
    if hostBits == 0 then Err("host capacity cannot be zero.")
    else if hostBits > 32 - network.len then Err("subnet capacity cannot be larger than number of networks available.")
    else if Rotated(network, hostBits) then
      RotatedIsWide(network, hostBits);
      var leftShift := 8 - hostBits % 8;
      Ok(Layout(network, hostBits, leftShift,
                (Shl(1, 32 - network.len) + Pow2(32) - 1) % Pow2(32),
                32 - network.len - hostBits - leftShift,
                Shl((Shl(1, leftShift) + Pow2(32) - 1) % Pow2(32), hostBits)))
    else Ok(Layout(network, hostBits, 0, Pow2(32) - 1, 0, 0))
  }

  lemma RotatedIsWide(network: Cidr, hostBits: nat)
    requires network.len <= 32 && 0 < hostBits <= 32 - network.len && Rotated(network, hostBits)
    ensures 8 - hostBits % 8 < 32 - network.len - hostBits
  {
  }

  /** The address that the allocator computes for subnet number `n`. */
  function Address(l: Layout, n: nat): nat {
    var shifted := Shl(n, l.hostBits);
    Or(Or(l.network.addr, And(Shl(shifted, l.leftShift), l.leftMask)), And(Shr(shifted, l.rightShift), l.rightMask))
  }

  ghost predicate IsLayout(l: Layout) {
    IsBlock(l.network) && MakeLayout(l.network, l.hostBits) == Ok(l)
  }

  function SubnetBitsOf(l: Layout): nat
    requires l.hostBits <= 32 - l.network.len
  {
    32 - l.network.len - l.hostBits
  }

  ghost predicate IsNumber(l: Layout, n: nat) {
    0 < l.hostBits <= 32 - l.network.len && n < Pow2(SubnetBitsOf(l))
  }

  /** Where in the network block `n` goes, counted in subnets. */
  function Place(l: Layout, n: nat): nat {
    if l.rightMask == 0 then n else Rotate(n, l.leftShift, l.rightShift)
  }

  lemma ShlFits(x: nat, k: nat)
    requires Times(x, Pow2(k)) < Pow2(32)
    ensures Shl(x, k) == Times(x, Pow2(k))
  {
    hide Times, Pow2;
    SmallMod(Times(x, Pow2(k)), Pow2(32));
  }

  /** A subnet number shifted by the host bits stays inside the network. */
  lemma ShiftedFits(l: Layout, n: nat)
    requires l.network.len <= 32 && IsNumber(l, n)
    ensures Times(n, Pow2(l.hostBits)) < Pow2(32 - l.network.len) <= Pow2(32)
    ensures Shl(n, l.hostBits) == Times(n, Pow2(l.hostBits))
  {
    hide Times, Pow2, Shl;
    PowTimes(SubnetBitsOf(l), l.hostBits);
    TimesMono(n, Pow2(SubnetBitsOf(l)), Pow2(l.hostBits));
    Pow2Grows(32 - l.network.len, 32);
    ShlFits(n, l.hostBits);
  }

  lemma LeftMaskValue(len: nat)
    requires len <= 32
    ensures (Shl(1, 32 - len) + Pow2(32) - 1) % Pow2(32) == Pow2(32 - len) - 1
  {
    hide Times, Pow2;
    var p, w := Pow2(32 - len), Pow2(32);
    Pow2Grows(32 - len, 32);
    assert Times(1, p) == p by { TimesAssoc(1, p, 1); TimesOne(p, p, p); }
    if p < w {
      ShlFits(1, 32 - len);
      WrapsTo(p - 1, w);
    } else {
      assert Shl(1, 32 - len) == 0 by { WrapsTo(0, w); }
      SmallMod(w - 1, w);
    }
  }

  lemma SmallMod(x: nat, w: nat)
    requires x < w
    ensures x % w == x
  {
  }

  lemma WrapsTo(x: nat, w: nat)
    requires x < w
    ensures (x + w) % w == x
  {
    DivUnique(x + w, w, 1, x);
  }

  lemma RightMaskValue(left: nat, h: nat)
    requires left <= 8 && h + left <= 32
    ensures Shl((Shl(1, left) + Pow2(32) - 1) % Pow2(32), h) == Times(Pow2(left) - 1, Pow2(h))
  {
    hide Times, Pow2, Shl;
    LeftMaskValue(32 - left);
    PowTimes(left, h);
    Pow2Grows(left + h, 32);
    TimesMono(Pow2(left) - 1, Pow2(left), Pow2(h));
    ShlFits(Pow2(left) - 1, h);
  }

  /** The low bits of the number, moved up. */
  lemma LeftPart(n: nat, h: nat, left: nat, right: nat)
    requires h + left + right <= 32 && n < Pow2(left + right) && Times(n, Pow2(h)) < Pow2(32)
    ensures And(Shl(Times(n, Pow2(h)), left), Pow2(h + left + right) - 1)
            == Times(Times(n % Pow2(right), Pow2(left)), Pow2(h))
  {
    hide Times, Pow2, And, Div;
    var t := h + left + right;
    var x := Times(Times(n, Pow2(h)), Pow2(left));
    AndLowMask(Shl(Times(n, Pow2(h)), left), t);
    PowTimes(32 - t, t);
    ModMod(x, Pow2(t), Pow2(32 - t));
    var q := Pow2(left + h);
    PowTimes(left, h);
    TimesAssoc(n, Pow2(h), Pow2(left));
    assert x == Times(n, q);
    PowTimes(right, left + h);
    ScaledDivMod(n, Pow2(right), q);
    TimesAssoc(n % Pow2(right), Pow2(left), Pow2(h));
  }

  /** The high bits of the number, moved to the bottom. */
  lemma RightPart(n: nat, h: nat, left: nat, right: nat)
    requires n < Pow2(left + right)
    ensures And(Shr(Times(n, Pow2(h)), right), Times(Pow2(left) - 1, Pow2(h))) == Times(Div(n, Pow2(right)), Pow2(h))
  {
    hide Times, Pow2, And, Div;
    var x := Shr(Times(n, Pow2(h)), right);
    AndShiftedMask(x, Pow2(left) - 1, h);
    AndLowMask(Div(x, Pow2(h)), left);
    DivDiv(Times(n, Pow2(h)), Pow2(right), Pow2(h));
    ScaledDivMod(n, Pow2(right), Pow2(h));
    RotateParts(n, left, right);
    SmallMod(Div(n, Pow2(right)), Pow2(left));
  }

  /** Or of base, left and right part is their sum. */
  lemma PartsAdd(base: nat, a: nat, b: nat, h: nat, left: nat, right: nat)
    requires base % Pow2(h + left + right) == 0 && a < Pow2(right) && b < Pow2(left)
    ensures Or(Or(base, Times(Times(a, Pow2(left)), Pow2(h))), Times(b, Pow2(h)))
         == base + Times(Times(a, Pow2(left)) + b, Pow2(h))
  {
    hide Times, Pow2, Or, Div;
    var t, c := h + left + right, Div(base, Pow2(h + left + right));
    var hi, lo := Times(Times(a, Pow2(left)), Pow2(h)), Times(b, Pow2(h));
    DivMod(base, Pow2(t));
    PowTimes(left, h);
    PowTimes(right, left + h);
    TimesAssoc(a, Pow2(left), Pow2(h));
    TimesMono(a, Pow2(right), Pow2(left + h));
    OrDisjoint(c, t, hi);
    TimesMono(b, Pow2(left), Pow2(h));
    TimesAssoc(c, Pow2(right), Pow2(left + h));
    TimesAdd(Times(c, Pow2(right)), a, Pow2(left + h));
    OrDisjoint(Times(c, Pow2(right)) + a, left + h, lo);
    TimesAdd(Times(a, Pow2(left)), b, Pow2(h));
  }

  /** The values of shifts and masks of a rotated layout. */
  lemma RotatedLayout(l: Layout)
    requires IsLayout(l) && 0 < l.hostBits <= 32 - l.network.len && Rotated(l.network, l.hostBits)
    ensures l.leftShift == 8 - l.hostBits % 8 && l.hostBits + l.leftShift + l.rightShift == 32 - l.network.len
    ensures l.leftMask == Pow2(32 - l.network.len) - 1
    ensures l.rightMask == Times(Pow2(l.leftShift) - 1, Pow2(l.hostBits)) > 0
  {
    hide Times, Pow2, Shl, IsBlock;
    RotatedIsWide(l.network, l.hostBits);
    LeftMaskValue(l.network.len);
    RightMaskValue(l.leftShift, l.hostBits);
    RightMaskPositive(l.leftShift, l.hostBits);
  }

  lemma StraightLayout(l: Layout)
    requires IsLayout(l) && 0 < l.hostBits <= 32 - l.network.len && !Rotated(l.network, l.hostBits)
    ensures l.leftShift == 0 && l.leftMask == Pow2(32) - 1 && l.rightShift == 0 && l.rightMask == 0
  {
    hide Times, Pow2, Shl, IsBlock;
  }

  /** The formula places subnet number `n` at block `Place(l, n)` of the network. */
  lemma AddressIsPlaced(l: Layout, n: nat)
    requires IsLayout(l) && IsNumber(l, n)
    ensures Address(l, n) == l.network.addr + Times(Place(l, n), Pow2(l.hostBits))
  {
    hide Times, Pow2, And, Or, Div, Shl, Shr, Rotate, MakeLayout, Rotated;
    if Rotated(l.network, l.hostBits) {
      RotatedAddress(l, n);
    } else {
      StraightLayout(l);
      ShiftedFits(l, n);
      Unrotated(l.network.addr, Times(n, Pow2(l.hostBits)), l.network.len);
    }
  }

  lemma RotatedAddress(l: Layout, n: nat)
    requires IsLayout(l) && IsNumber(l, n) && Rotated(l.network, l.hostBits)
    ensures Address(l, n) == l.network.addr + Times(Place(l, n), Pow2(l.hostBits))
  {
    hide Times, Pow2, And, Or, Div, Shl, Shr, Rotate, MakeLayout, Rotated;
    var h, left, right := l.hostBits, l.leftShift, l.rightShift;
    RotatedLayout(l);
    ShiftedFits(l, n);
    LeftPart(n, h, left, right);
    RightPart(n, h, left, right);
    RotateParts(n, left, right);
    DivMod(n, Pow2(right));
    PartsAdd(l.network.addr, n % Pow2(right), Div(n, Pow2(right)), h, left, right);
    RotateIs(n, left, right);
  }

  lemma RotateIs(n: nat, l: nat, r: nat)
    ensures Rotate(n, l, r) == Times(n % Pow2(r), Pow2(l)) + Div(n, Pow2(r))
  {
  }

  lemma RightMaskPositive(left: nat, h: nat)
    requires left > 0
    ensures Times(Pow2(left) - 1, Pow2(h)) > 0
  {
    hide Times;
    TimesMono(0, Pow2(left) - 1, Pow2(h));
    TimesZero(Pow2(h));
  }

  lemma PowZero()
    ensures Pow2(0) == 1
  {
  }

  lemma Unrotated(base: nat, x: nat, len: nat)
    requires len <= 32 && base % Pow2(32 - len) == 0 && x < Pow2(32 - len) <= Pow2(32)
    ensures Or(Or(base, And(Shl(x, 0), Pow2(32) - 1)), And(Shr(x, 0), 0)) == base + x
  {
    hide Times, And, Or, Div, Shr, Pow2;
    PowZero();
    TimesOne(x, x, x);
    ShlFits(x, 0);
    AndLowMask(x, 32);
    SmallMod(x, Pow2(32));
    AndZero(Shr(x, 0));
    DivMod(base, Pow2(32 - len));
    OrDisjoint(Div(base, Pow2(32 - len)), 32 - len, x);
    OrZero(base + x);
  }

  // ---- numbers and blocks ----------------------------------------------------------

  /** The subnet with number `n`. */
  function SubnetAt(l: Layout, n: nat): Cidr
    requires l.hostBits <= 32
  {
    Cidr(Address(l, n), 32 - l.hostBits)
  }

  /** A host-size block inside the network. */
  ghost predicate IsSubnet(l: Layout, c: Cidr) {
    l.hostBits <= 32 && c.len == 32 - l.hostBits && IsBlock(c) && Contains(l.network, c.addr)
  }

  lemma PlaceFits(l: Layout, n: nat)
    requires IsLayout(l) && IsNumber(l, n)
    ensures Place(l, n) < Pow2(SubnetBitsOf(l))
  {
    hide Times, Pow2, And, Or, Div, Shl, Rotate;
    if Rotated(l.network, l.hostBits) {
      RotatedIsWide(l.network, l.hostBits);
      RotateParts(n, l.leftShift, l.rightShift);
    }
  }

  /** Every number is a subnet of the network. */
  lemma NumberIsSubnet(l: Layout, n: nat)
    requires IsLayout(l) && IsNumber(l, n)
    ensures IsSubnet(l, SubnetAt(l, n))
  {
    hide Times, Pow2, And, Or, Div, Shl, Address, Place, MakeLayout;
    var h, t := l.hostBits, 32 - l.network.len;
    LayoutFits(l);
    AddressIsPlaced(l, n);
    PlaceFits(l, n);
    var p := Place(l, n);
    PowTimes(SubnetBitsOf(l), h);
    StepBelow(p, Pow2(SubnetBitsOf(l)), Pow2(h));
    var base := l.network.addr;
    DivMod(base, Pow2(t));
    TimesAssoc(Div(base, Pow2(t)), Pow2(SubnetBitsOf(l)), Pow2(h));
    var q := Times(Div(base, Pow2(t)), Pow2(SubnetBitsOf(l)));
    TimesAdd(q, p, Pow2(h));
    DivModUnique(Address(l, n), Pow2(h), q + p, 0);
    ContainsIsInterval(l.network, Address(l, n));
  }

  lemma LayoutFits(l: Layout)
    requires IsLayout(l)
    ensures 0 < l.hostBits <= 32 - l.network.len
  {
  }

  /** Every subnet of the network has a number. */
  lemma SubnetHasNumber(l: Layout, c: Cidr) returns (n: nat)
    requires IsLayout(l) && IsSubnet(l, c)
    ensures IsNumber(l, n) && SubnetAt(l, n) == c
  {
    hide Times, Pow2, And, Or, Div, Shl, Address, Rotate;
    LayoutFits(l);
    var h, t, s := l.hostBits, 32 - l.network.len, SubnetBitsOf(l);
    var base := l.network.addr;
    ContainsIsInterval(l.network, c.addr);
    var p := Div(c.addr - base, Pow2(h));
    PowTimes(s, h);
    DivBelow(c.addr - base, Pow2(s), Pow2(h));
    DivMod(c.addr - base, Pow2(h));
    MultipleMod(base, c.addr, Pow2(h), Pow2(s));
    if Rotated(l.network, h) {
      RotatedIsWide(l.network, h);
      RightMaskValue(l.leftShift, h);
      RightMaskPositive(l.leftShift, h);
      RotateBack(p, l.rightShift, l.leftShift);
      n := Rotate(p, l.rightShift, l.leftShift);
    } else {
      n := p;
    }
    AddressIsPlaced(l, n);
  }

  /** A multiple of `d * e` away, multiples of `d` stay multiples. */
  lemma MultipleMod(a: nat, b: nat, d: nat, e: nat)
    requires d > 0 && e > 0 && a <= b && Times(e, d) > 0 && a % Times(e, d) == 0 && b % d == 0
    ensures (b - a) % d == 0
  {
    hide Times, Div;
    DivMod(a, Times(e, d));
    TimesAssoc(Div(a, Times(e, d)), e, d);
    var q := Times(Div(a, Times(e, d)), e);
    DivMod(b, d);
    var r := Div(b, d);
    DivMod(b - a, d);
    var k, m := Div(b - a, d), (b - a) % d;
    TimesAdd(q, k, d);
    DivModUnique(b, d, q + k, m);
  }

  /** The number standing at a place of the network. */
  ghost function NumberAt(l: Layout, p: nat): nat {
    if l.rightMask == 0 then p else Rotate(p, l.rightShift, l.leftShift)
  }

  lemma PlaceBack(l: Layout, n: nat)
    requires IsLayout(l) && IsNumber(l, n)
    ensures NumberAt(l, Place(l, n)) == n
  {
    hide Times, Pow2, And, Or, Div, Shl, Address, Rotate;
    if Rotated(l.network, l.hostBits) {
      RotatedIsWide(l.network, l.hostBits);
      RotateBack(n, l.leftShift, l.rightShift);
    }
  }

  /** Different numbers are different subnets. */
  lemma NumbersDiffer(l: Layout, n: nat, m: nat)
    requires IsLayout(l) && IsNumber(l, n) && IsNumber(l, m) && n != m
    ensures SubnetAt(l, n) != SubnetAt(l, m)
  {
    hide Times, Pow2, And, Or, Div, Shl, Address, Place, MakeLayout;
    LayoutFits(l);
    AddressIsPlaced(l, n);
    AddressIsPlaced(l, m);
    PlaceBack(l, n);
    PlaceBack(l, m);
    if Place(l, n) < Place(l, m) {
      TimesMono(Place(l, n), Place(l, m), Pow2(l.hostBits));
    } else {
      TimesMono(Place(l, m), Place(l, n), Pow2(l.hostBits));
    }
  }

  /** If the host bits end inside an octet and the network reaches beyond that octet, the
      first numbers are exactly the subnets whose bits between the host bits and the next
      octet are all zero, in order, and the others follow by those bits.  Otherwise the
      numbers are in order. */
  lemma FirstNumbersShareNoOctet(l: Layout, n: nat)
    requires IsLayout(l) && IsNumber(l, n)
    ensures var h, t, c := l.hostBits, 32 - l.network.len, SubnetAt(l, n);
            var left := 8 - h % 8;
            if h % 8 != 0 && t > h + left then
              var first := Pow2(t - h - left);
              && (n < first <==> (c.addr / Pow2(h)) % Pow2(left) == 0)
              && c.addr == l.network.addr + (n % first) * Pow2(h + left) + (n / first) * Pow2(h)
            else c.addr == l.network.addr + n * Pow2(h)
  {
    hide Pow2, Address, MakeLayout;
    LayoutFits(l);
    RotatedIff(l.network, l.hostBits);
    AddressIsPlaced(l, n);
    if Rotated(l.network, l.hostBits) {
      var h, left, right := l.hostBits, l.leftShift, l.rightShift;
      RotatedLayout(l);
      FirstAreRotated(l, n);
      PowTimes(left, h);
      TimesAdd(Times(n % Pow2(right), Pow2(left)), Div(n, Pow2(right)), Pow2(h));
      TimesAssoc(n % Pow2(right), Pow2(left), Pow2(h));
    } else {
      StraightLayout(l);
    }
  }

  /** The subnet bits reach into another octet exactly when the network is larger than what is
      left of the octet in which the host bits end. */
  lemma RotatedIff(network: Cidr, h: nat)
    requires network.len <= 32 && 0 < h <= 32 - network.len
    ensures Rotated(network, h) <==> h % 8 != 0 && 32 - network.len > h + (8 - h % 8)
  {
  }

  lemma FirstAreRotated(l: Layout, n: nat)
    requires IsLayout(l) && IsNumber(l, n) && Rotated(l.network, l.hostBits)
    ensures l.leftShift == 8 - l.hostBits % 8 && l.rightShift == SubnetBitsOf(l) - l.leftShift
    ensures n < Pow2(l.rightShift) <==> Div(Address(l, n), Pow2(l.hostBits)) % Pow2(l.leftShift) == 0
  {
    hide Times, Pow2, And, Or, Div, Shl, Address, Rotate;
    var h, left, right := l.hostBits, l.leftShift, l.rightShift;
    RotatedIsWide(l.network, h);
    RightMaskValue(left, h);
    RightMaskPositive(left, h);
    AddressIsPlaced(l, n);
    RotateParts(n, left, right);
    var base, p, t := l.network.addr, Place(l, n), h + left + right;
    DivMod(base, Pow2(t));
    var c := Div(base, Pow2(t));
    PowTimes(right + left, h);
    PowTimes(right, left);
    TimesAssoc(c, Pow2(right + left), Pow2(h));
    TimesAssoc(c, Pow2(right), Pow2(left));
    var q := Times(c, Pow2(right));
    TimesAdd(Times(q, Pow2(left)), p, Pow2(h));
    DivModUnique(Address(l, n), Pow2(h), Times(q, Pow2(left)) + p, 0);
    DivMod(p, Pow2(left));
    TimesAdd(q, Div(p, Pow2(left)), Pow2(left));
    DivModUnique(Times(q, Pow2(left)) + p, Pow2(left), q + Div(p, Pow2(left)), p % Pow2(left));
    QuotientZero(n, Pow2(right));
  }

  lemma QuotientZero(n: nat, d: nat)
    requires d > 0
    ensures Div(n, d) == 0 <==> n < d
  {
    if n < d {
      DivUnique(n, d, 0, n);
    }
  }
}
