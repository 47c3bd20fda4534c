/** IP prefixes as address blocks (section 3.1 of RFC 4632): containment, masking and overlap. */
module Prefixes {

  function Pow2(n: nat): (p: nat)
    ensures p >= 1
  {
    if n == 0 then 1 else 2 * Pow2(n - 1)
  }

  /** width is the address length in bits: 32 for IPv4, 128 for IPv6. */
  datatype Prefix = Prefix(width: nat, addr: nat, bits: nat)

  predicate Valid(p: Prefix) { p.bits <= p.width && p.addr < Pow2(p.width) }

  predicate Is4(p: Prefix) { p.width == 32 }

  /** How many addresses the prefix covers. */
  function Size(p: Prefix): (n: nat)
    requires Valid(p)
    ensures n >= 1
  {
    Pow2(p.width - p.bits)
  }

  function Masked(p: Prefix): Prefix
    requires Valid(p)
  {
    ModAtMost(p.addr, Size(p));
    p.(addr := p.addr - p.addr % Size(p))
  }

  /** The leading bits of x are those of the prefix. */
  predicate Contains(p: Prefix, width: nat, x: nat)
    requires Valid(p)
  {
    width == p.width && x / Size(p) == p.addr / Size(p)
  }

  predicate PrefixesOverlap(a: Prefix, b: Prefix)
    requires Valid(a) && Valid(b)
  {
    a.width == b.width && (Contains(a, b.width, b.addr) || Contains(b, a.width, a.addr))
  }

  ghost predicate ShareAddress(a: Prefix, b: Prefix)
    requires Valid(a) && Valid(b)
  {
    exists x: nat :: Contains(a, a.width, x) && Contains(b, a.width, x)
  }

  // ----- arithmetic ---------------------------------------------------------------------------

  lemma DivRange(x: nat, s: nat, q: nat)
    requires s >= 1
    ensures x / s == q <==> q * s <= x < q * s + s
  {
    var d := x / s;
    assert x == d * s + x % s;
    if d < q {
      assert (d + 1) * s <= q * s;
      assert x < q * s;
    } else if q < d {
      assert (q + 1) * s <= d * s;
      assert q * s + s <= x;
    }
  }

  lemma MulMono(a: nat, b: nat, c: nat)
    requires a <= b
    ensures a * c <= b * c
  {
  }

  lemma MulSucc(a: nat, c: nat)
    ensures (a + 1) * c == a * c + c
  {
  }

  lemma RoundDown(addr: nat, s: nat)
    requires s >= 1
    ensures addr - addr % s == addr / s * s
  {
  }

  lemma MultipleOf(q: nat, s: nat)
    requires s >= 1
    ensures q * s / s == q && q * s % s == 0
  {
    DivRange(q * s, s, q);
    RoundDown(q * s, s);
  }

  /** The block of size s that addr lies in. */
  lemma BlockOf(addr: nat, s: nat, x: nat)
    requires s >= 1
    ensures
      var base := addr - addr % s;
      && 0 <= base <= addr < base + s && base / s == addr / s && base % s == 0
      && (x / s == addr / s <==> base <= x < base + s)
  {
    var q := addr / s;
    RoundDown(addr, s);
    DivRange(addr, s, q);
    DivRange(x, s, q);
    MultipleOf(q, s);
  }

  /** x divided by c, with its defining bounds. */
  function Quotient(x: nat, c: nat): (q: nat)
    requires c >= 1
    ensures q * c <= x < q * c + c
  {
    DivRange(x, c, x / c);
    x / c
  }

  lemma ModAtMost(x: nat, s: nat)
    requires s >= 1
    ensures x % s <= x
  {
    if x < s {
      DivRange(x, s, 0);
      assert x == x / s * s + x % s;
    }
  }

  lemma {:induction false} Pow2Add(m: nat, n: nat)
    ensures Pow2(m + n) == Pow2(m) * Pow2(n)
  {
    if m == 0 {
      assert Pow2(0) * Pow2(n) == Pow2(n);
    } else {
      Pow2Add(m - 1, n);
      assert 2 * (Pow2(m - 1) * Pow2(n)) == 2 * Pow2(m - 1) * Pow2(n);
    }
  }

  lemma DivNested(x: nat, s: nat, m: nat)
    requires s >= 1 && m >= 1
    ensures s * m >= 1 && x / (s * m) == x / s / m
  {
    var d, q := x / s, x / s / m;
    DivRange(d, m, q);
    DivRange(x, s, d);
    MulMono(1, s, m);
    MulMono(q * m, d, s);
    Regrouped(q, m, s);
    MulSucc(q, m);
    MulMono(d + 1, (q + 1) * m, s);
    MulSucc(d, s);
    Regrouped(q + 1, m, s);
    MulSucc(q, s * m);
    DivRange(x, s * m, q);
  }

  lemma Regrouped(a: nat, b: nat, c: nat)
    ensures a * b * c == a * (c * b)
  {
  }

  /** An address in the finer prefix shares the coarser prefix's leading bits with the finer prefix's base. */
  lemma CoarserAgrees(wide: Prefix, narrow: Prefix, x: nat)
    requires Valid(wide) && Valid(narrow) && wide.width == narrow.width && wide.bits <= narrow.bits
    requires Contains(narrow, narrow.width, x)
    ensures x / Size(wide) == narrow.addr / Size(wide)
  {
    var m := Pow2(narrow.bits - wide.bits);
    Pow2Add(narrow.width - narrow.bits, narrow.bits - wide.bits);
    DivNested(x, Size(narrow), m);
    DivNested(narrow.addr, Size(narrow), m);
  }

  /** The overlap test is true exactly when the two prefixes share an address. */
  lemma OverlapIffShared(a: Prefix, b: Prefix)
    requires Valid(a) && Valid(b)
    ensures PrefixesOverlap(a, b) <==> ShareAddress(a, b)
  {
    if PrefixesOverlap(a, b) {
      if Contains(a, b.width, b.addr) {
        assert Contains(b, a.width, b.addr);
      } else {
        assert Contains(a, a.width, a.addr);
      }
    }
    if ShareAddress(a, b) {
      var x :| Contains(a, a.width, x) && Contains(b, a.width, x);
      if a.bits <= b.bits {
        CoarserAgrees(a, b, x);
      } else {
        CoarserAgrees(b, a, x);
      }
    }
  }

  /** A masked prefix covers the addresses from its base to its base plus its size, and no others. */
  lemma MaskedRange(p: Prefix, x: nat)
    requires Valid(p)
    ensures Valid(Masked(p)) && Size(Masked(p)) == Size(p)
    ensures Masked(p).addr <= p.addr < Masked(p).addr + Size(p)
    ensures Contains(p, p.width, x) <==> Masked(p).addr <= x < Masked(p).addr + Size(p)
    ensures Contains(Masked(p), p.width, x) <==> Contains(p, p.width, x)
  {
    hide Pow2;
    ModAtMost(p.addr, Size(p));
    BlockOf(p.addr, Size(p), x);
  }

  /** Masking twice is masking once. */
  lemma MaskedTwice(p: Prefix)
    requires Valid(p)
    ensures Valid(Masked(p)) && Masked(Masked(p)) == Masked(p)
  {
    hide Pow2;
    ModAtMost(p.addr, Size(p));
    BlockOf(p.addr, Size(p), p.addr);
  }
}
