/** Powers of two, and numbers written as quotient and remainder. */
module Arithmetic {

  function Pow2(n: nat): (p: nat)
    ensures p > 0
  {
    if n == 0 then 1 else 2 * Pow2(n - 1)
  }

  lemma {:induction false} Pow2Monotone(a: nat, b: nat)
    requires a <= b
    ensures Pow2(a) <= Pow2(b)
    decreases b
  {
    if a < b { Pow2Monotone(a, b - 1); }
  }

  lemma Pow2Values()
    ensures Pow2(8) == 256 && Pow2(32) == 0x1_0000_0000 && Pow2(36) == 0x10_0000_0000
    ensures Pow2(37) == 0x20_0000_0000 && Pow2(46) == 0x4000_0000_0000
  {
    assert Pow2(4) == 16;
    assert Pow2(8) == 256;
    assert Pow2(12) == 0x1000;
    assert Pow2(16) == 0x1_0000;
    assert Pow2(20) == 0x10_0000;
    assert Pow2(24) == 0x100_0000;
    assert Pow2(28) == 0x1000_0000;
    assert Pow2(32) == 0x1_0000_0000;
    assert Pow2(36) == 0x10_0000_0000;
    assert Pow2(40) == 0x100_0000_0000;
    assert Pow2(44) == 0x1000_0000_0000;
  }

  lemma {:induction false} Pow2Add(a: nat, b: nat)
    ensures Pow2(a + b) == Pow2(a) * Pow2(b)
  {
    if a > 0 { Pow2Add(a - 1, b); }
  }

  lemma QuotientFirst(d: nat, q: nat, r: nat, p: nat, s: nat)
    requires r < d && q < p
    ensures q * d + r < p * d + s
  {
    assert (q + 1) * d <= p * d;
  }

  /** A number is written in one way. */
  lemma WrittenOnce(d: nat, q: nat, r: nat, p: nat, s: nat)
    requires r < d && s < d && q * d + r == p * d + s
    ensures q == p && r == s
  {
    if q < p {
      QuotientFirst(d, q, r, p, s);
    } else if p < q {
      QuotientFirst(d, p, s, q, r);
    }
  }

  lemma Division(n: nat, d: nat)
    requires d > 0
    ensures n == (n / d) * d + n % d && n % d < d
  {
  }

  lemma DivisionUnique(n: nat, d: nat, q: nat, r: nat)
    requires n == q * d + r && r < d
    ensures n / d == q && n % d == r
  {
    Division(n, d);
    WrittenOnce(d, q, r, n / d, n % d);
  }

  /** How dividing goes on. */
  lemma DivisionNext(n: nat, d: nat)
    requires d > 0
    ensures (n + 1) / d == n / d + if n % d + 1 == d then 1 else 0
    ensures (n + 1) % d == if n % d + 1 == d then 0 else n % d + 1
  {
    var q, r := n / d, n % d;
    Division(n, d);
    if r + 1 == d {
      assert (q + 1) * d == q * d + d;
      DivisionUnique(n + 1, d, q + 1, 0);
    } else {
      DivisionUnique(n + 1, d, q, r + 1);
    }
  }
}
