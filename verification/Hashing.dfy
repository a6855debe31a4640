/** The 32-bit FNV-1a hash. */
module Hashing {
  import opened Bytes
  import opened Arithmetic

  type Word = n: nat | n < 0x1_0000_0000

  const FNV_BASIS: Word := 0x811c_9dc5

  /** Exclusive or of the lowest `k` bits. */
  function XorBits(a: nat, b: nat, k: nat): (r: nat) {
    if k == 0 then 0 else 2 * XorBits(a / 2, b / 2, k - 1) + (a + b) % 2
  }

  lemma {:induction false} XorBelow(a: nat, b: nat, k: nat)
    ensures XorBits(a, b, k) < Pow2(k)
  {
    if k > 0 { XorBelow(a / 2, b / 2, k - 1); }
  }

  function XorByte(a: byte, b: byte): (r: byte) {
    XorBelow(a, b, 8);
    Pow2Values();
    XorBits(a, b, 8)
  }

  /** Exclusive or with an octet, which leaves the upper bits alone. */
  function XorLow(hash: Word, octet: byte): (r: Word) { hash - hash % 256 + XorByte(hash % 256, octet) }

  /** Multiplication by the FNV prime, in 32 bits. */
  function TimesPrime(x: Word): (r: Word) { x * 0x0100_0193 % 0x1_0000_0000 }

  function FnvStep(hash: Word, octet: byte): (h: Word) { TimesPrime(XorLow(hash, octet)) }

  function Fnv(octets: seq<byte>, hash: Word): (h: Word) {
    if octets == [] then hash else Fnv(octets[1..], FnvStep(hash, octets[0]))
  }

  lemma FnvNext(octets: seq<byte>, i: nat, hash: Word, next: Word)
    requires i < |octets| && next == FnvStep(hash, octets[i])
    ensures Fnv(octets[i..], hash) == Fnv(octets[i + 1..], next)
  {
    assert octets[i..][1..] == octets[i + 1..];
  }

  // ---------------------------------------------------------------- nothing is lost

  lemma Expanded(x: int, q: int, r: int)
    requires r == x * 0x0100_0193 - q * 0x1_0000_0000
    ensures r * 0x359c_449b == x + (x * 3513497 - q * 0x359c_449b) * 0x1_0000_0000
  {
  }

  lemma Remainder(n: int, x: Word, k: int)
    requires n == x + k * 0x1_0000_0000
    ensures n % 0x1_0000_0000 == x
  {
  }

  /** The prime has an inverse modulo 2^32. */
  lemma TimesPrimeUndone(x: Word)
    ensures TimesPrime(x) * 0x359c_449b % 0x1_0000_0000 == x
  {
    var q := x * 0x0100_0193 / 0x1_0000_0000;
    Expanded(x, q, TimesPrime(x));
    Remainder(TimesPrime(x) * 0x359c_449b, x, x * 3513497 - q * 0x359c_449b);
  }

  lemma TimesPrimeInjective(x: Word, y: Word)
    requires TimesPrime(x) == TimesPrime(y)
    ensures x == y
  {
    TimesPrimeUndone(x);
    TimesPrimeUndone(y);
  }

  lemma ParityUndone(a: nat, b: nat, x: nat)
    requires x % 2 == (a + b) % 2
    ensures (x + b) % 2 == a % 2
  {
  }

  lemma {:induction false} XorBitsUndone(a: nat, b: nat, k: nat)
    requires a < Pow2(k)
    ensures XorBits(XorBits(a, b, k), b, k) == a
  {
    if k > 0 {
      XorBitsUndone(a / 2, b / 2, k - 1);
      XorHalves(a, b, k);
      var x := XorBits(a, b, k);
      ParityUndone(a, b, x);
      assert XorBits(x, b, k) == 2 * XorBits(x / 2, b / 2, k - 1) + (x + b) % 2;
    }
  }

  lemma {:induction false} XorBitsCommute(a: nat, b: nat, k: nat)
    ensures XorBits(a, b, k) == XorBits(b, a, k)
  {
    if k > 0 { XorBitsCommute(a / 2, b / 2, k - 1); }
  }

  lemma XorHalves(a: nat, b: nat, k: nat)
    requires k > 0
    ensures XorBits(a, b, k) / 2 == XorBits(a / 2, b / 2, k - 1) && XorBits(a, b, k) % 2 == (a + b) % 2
  {
  }

  lemma XorByteUndone(a: byte, b: byte)
    ensures XorByte(XorByte(a, b), b) == a && XorByte(a, b) == XorByte(b, a)
  {
    Pow2Values();
    XorBitsUndone(a, b, 8);
    XorBitsCommute(a, b, 8);
  }

  lemma XorLowParts(hash: Word, octet: byte)
    ensures XorLow(hash, octet) / 256 == hash / 256 && XorLow(hash, octet) % 256 == XorByte(hash % 256, octet)
  {
  }

  lemma StepInjective(g: Word, a: byte, h: Word, b: byte)
    requires FnvStep(g, a) == FnvStep(h, b)
    ensures g / 256 == h / 256 && XorByte(g % 256, a) == XorByte(h % 256, b)
  {
    TimesPrimeInjective(XorLow(g, a), XorLow(h, b));
    XorLowParts(g, a);
    XorLowParts(h, b);
  }

  /** The same octets never bring two hashes together. */
  lemma {:induction false} HashesStayApart(octets: seq<byte>, g: Word, h: Word)
    requires Fnv(octets, g) == Fnv(octets, h)
    ensures g == h
  {
    if octets != [] {
      var o := octets[0];
      HashesStayApart(octets[1..], FnvStep(g, o), FnvStep(h, o));
      StepInjective(g, o, h, o);
      XorByteUndone(g % 256, o);
      XorByteUndone(h % 256, o);
    }
  }

  /** Inputs that differ in one octet have different hashes. */
  lemma {:induction false} OneOctetMatters(before: seq<byte>, a: byte, b: byte, after: seq<byte>, hash: Word)
    requires Fnv(before + [a] + after, hash) == Fnv(before + [b] + after, hash)
    ensures a == b
  {
    var x, y := before + [a] + after, before + [b] + after;
    if before == [] {
      assert x[1..] == after && y[1..] == after;
      HashesStayApart(after, FnvStep(hash, a), FnvStep(hash, b));
      StepInjective(hash, a, hash, b);
      XorByteUndone(a, hash % 256);
      XorByteUndone(b, hash % 256);
    } else {
      assert x[1..] == before[1..] + [a] + after && y[1..] == before[1..] + [b] + after;
      OneOctetMatters(before[1..], a, b, after, FnvStep(hash, before[0]));
    }
  }

  // ---------------------------------------------------------------- published values

  lemma OneLetter()
    ensures XorByte(0xc5, 0x61) == 0xa4
  {
    assert XorBits(0xc, 0x6, 4) == 0xa;
    assert XorBits(0x31, 0x18, 6) == 0x29;
  }

  lemma PrimeValue()
    ensures TimesPrime(0x811c_9da4) == 0xe40c_292c
  {
  }

  lemma OneStep(hash: Word, a: byte, octet: byte, low: byte, x: Word, next: Word)
    requires hash % 256 == a && XorByte(a, octet) == low && x == hash - a + low && TimesPrime(x) == next
    ensures Fnv([octet], hash) == next
  {
    assert [octet][1..] == [];
  }

  /** The published FNV-1a hashes of no octets and of the letter a. */
  lemma FnvVectors()
    ensures Fnv([], FNV_BASIS) == 0x811c_9dc5
    ensures Fnv([0x61], FNV_BASIS) == 0xe40c_292c
  {
    OneLetter();
    PrimeValue();
    OneStep(FNV_BASIS, 0xc5, 0x61, 0xa4, 0x811c_9da4, 0xe40c_292c);
  }
}
