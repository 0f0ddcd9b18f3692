/** IPv4 prefixes: blocks of addresses that share their leading bits. */
module Cidr {
  function Pow2(n: nat): (r: nat)
    ensures r > 0
  {
    if n == 0 then 1 else 2 * Pow2(n - 1)
  }

  /** An address and a prefix length. */
  datatype Cidr = Cidr(addr: nat, len: nat)

  function Size(c: Cidr): (r: nat)
    requires c.len <= 32
    ensures r > 0
  {
    Pow2(32 - c.len)
  }

  /** The host bits of the address are zero, as parsing a CIDR leaves them. */
  predicate IsBlock(c: Cidr) {
    c.len <= 32 && c.addr % Size(c) == 0 && c.addr + Size(c) <= Pow2(32)
  }

  /** The address agrees with the prefix in its first `len` bits. */
  predicate Contains(c: Cidr, x: nat) {
    c.len <= 32 && x / Size(c) == c.addr / Size(c)
  }

  predicate CIDRsOverlap(a: Cidr, b: Cidr) {
    Contains(a, b.addr) || Contains(b, a.addr)
  }

  lemma {:induction false} Pow2Add(m: nat, n: nat)
    ensures Pow2(m + n) == Pow2(m) * Pow2(n)
  {
    if m > 0 {
      Pow2Add(m - 1, n);
      MulAssoc(2, Pow2(m - 1), Pow2(n));
    }
  }

  lemma MulAssoc(a: int, b: int, c: int)
    ensures (a * b) * c == a * (b * c)
  {
  }

  lemma {:induction false} Pow2Grows(m: nat, n: nat)
    requires m <= n
    ensures Pow2(m) <= Pow2(n)
    decreases n
  {
    if m < n {
      Pow2Grows(m, n - 1);
    }
  }

  /** Quotient and remainder are the only way to split `x` by `d`. */
  lemma DivUnique(x: int, d: int, q: int, r: int)
    requires d > 0 && x == q * d + r && 0 <= r < d
    ensures x / d == q && x % d == r
  {
    var k := x / d - q;
    assert x == (x / d) * d + x % d;
    assert k * d == r - x % d by { MulSub(x / d, q, d); }
    if k > 0 { MulLower(k, d); } else if k < 0 { MulLower(-k, d); }
  }

  lemma MulSub(a: int, b: int, d: int)
    ensures (a - b) * d == a * d - b * d
  {
  }

  lemma MulLower(k: int, d: int)
    requires k > 0 && d > 0
    ensures k * d >= d
  {
  }

  lemma SameQuotient(a: nat, d: nat, x: nat)
    requires d > 0 && a % d == 0
    ensures x / d == a / d <==> a <= x < a + d
  {
    var q := a / d;
    assert a == q * d && x == (x / d) * d + x % d;
    if a <= x < a + d {
      DivUnique(x, d, q, x - a);
    }
  }

  /** A block is an interval. */
  lemma ContainsIsInterval(c: Cidr, x: nat)
    requires IsBlock(c)
    ensures Contains(c, x) <==> c.addr <= x < c.addr + Size(c)
  {
    hide Size;
    SameQuotient(c.addr, Size(c), x);
  }

  /** The overlap check holds exactly when some address lies in both blocks. */
  lemma OverlapIsShared(a: Cidr, b: Cidr)
    requires IsBlock(a) && IsBlock(b)
    ensures CIDRsOverlap(a, b) <==> exists x: nat :: Contains(a, x) && Contains(b, x)
  {
    ContainsIsInterval(a, b.addr);
    ContainsIsInterval(b, a.addr);
    if CIDRsOverlap(a, b) {
      var x := if Contains(a, b.addr) then b.addr else a.addr;
      ContainsIsInterval(a, x);
      ContainsIsInterval(b, x);
    }
    if x: nat :| Contains(a, x) && Contains(b, x) {
      ContainsIsInterval(a, x);
      ContainsIsInterval(b, x);
    }
  }
}
