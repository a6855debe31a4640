/**
 The bucketing of the latency histogram: 256 exact buckets, then 256 buckets per
 octave up to 2^46 ns, then everything above in the last bucket.

 Every bucket is an interval, the intervals tile [0, 2^46) in index order, and a
 bucket is reported at its midpoint. Monotonicity, the inverse law and the
 quantization bound all follow from the tiling.
 */
module Buckets {
  import opened Arithmetic

  // The literals below: SUB_BITS is 8, so there are 256 buckets per octave;
  // MAX_OCTAVE is 45, so there are (45 - 8 + 1) * 256 + 256 buckets.
  const BUCKETS := 9984

  /** `Math.floor(Math.log2(n))`, exactly. */
  function FloorLog2(n: nat): (k: nat)
    requires n >= 1
  {
    if n < 2 then 0 else 1 + FloorLog2(n / 2)
  }

  lemma {:induction false} FloorLog2Bounds(n: nat)
    requires n >= 1
    ensures Pow2(FloorLog2(n)) <= n < Pow2(FloorLog2(n) + 1)
  {
    if n >= 2 {
      FloorLog2Bounds(n / 2);
      var p, q := Pow2(FloorLog2(n / 2)), Pow2(FloorLog2(n / 2) + 1);
      assert FloorLog2(n) == FloorLog2(n / 2) + 1;
      assert Pow2(FloorLog2(n)) == 2 * p && Pow2(FloorLog2(n) + 1) == 2 * q;
    }
  }

  /** `bucketIndex`. */
  function BucketIndex(ns: real): (i: nat)
    requires ns >= 0.0
    ensures i < BUCKETS
  {
    if ns < 256.0 then ns.Floor
    else
      var octave := FloorLog2(ns.Floor);
      if octave > 45 then BUCKETS - 1
      else
        OctaveAtLeast(ns);
        var scale := Pow2(octave - 8);
        var sub := (ns / scale as real).Floor - 256;
        SubRange(ns);
        (octave - 7) * 256 + sub
  }

  /** `bucketValue`: the midpoint of a bucket, or its only integer. */
  function BucketValue(i: nat): (v: real)
    requires i < BUCKETS
  {
    if i < 256 then i as real
    else
      var scale := Pow2((i - 256) / 256);
      ((256 + (i - 256) % 256) * scale) as real + scale as real / 2.0
  }

  /** Lower end of a bucket, and the upper end of the one before it. */
  function Lower(i: nat): (n: nat) {
    if i < 256 then i else Scaled((i - 256) / 256, (i - 256) % 256)
  }

  function Scaled(e: nat, sub: nat): (n: nat) { (256 + sub) * Pow2(e) }

  // ---------------------------------------------------------------- the tiling

  lemma OctaveAtLeast(ns: real)
    requires ns >= 256.0
    ensures FloorLog2(ns.Floor) >= 8
  {
    FloorLog2Bounds(ns.Floor);
    if FloorLog2(ns.Floor) < 8 {
      Pow2Monotone(FloorLog2(ns.Floor) + 1, 8);
      Pow2Values();
    }
  }

  lemma MulByPositive(a: real, b: real, s: real)
    requires s > 0.0 && a < b
    ensures a * s < b * s
  {
    assert (b - a) * s > 0.0;
  }

  lemma MulNext(f: real, g: real, r: real)
    requires g == f + 1.0
    ensures g * r == f * r + r
  {
  }

  lemma {:induction false} RealProduct(f: int, s: nat)
    ensures (f * s) as real == f as real * s as real
  {
    if s > 0 {
      RealProduct(f, s - 1);
      var r, t := (s - 1) as real, s as real;
      assert t == r + 1.0;
      assert f as real * t == f as real * r + f as real;
      assert f * s == f * (s - 1) + f;
    }
  }

  lemma QuotientAbove(x: real, q: real, r: real, f: real)
    requires r > 0.0 && q < f + 1.0 && q * r == x
    ensures x < f * r + r
  {
    var g := f + 1.0;
    MulByPositive(q, g, r);
    MulNext(f, g, r);
  }

  lemma QuotientBelow(x: real, q: real, r: real, f: real)
    requires r > 0.0 && f <= q && q * r == x
    ensures f * r <= x
  {
    if f < q { MulByPositive(f, q, r); }
  }

  lemma DivideBack(x: real, r: real)
    requires r > 0.0
    ensures (x / r) * r == x
  {
  }

  /** Flooring a quotient by an integer. */
  lemma FloorQuotient(x: real, s: nat, f: int)
    requires s > 0 && f == (x / s as real).Floor
    ensures (f * s) as real <= x < (f * s) as real + s as real
  {
    DivideBack(x, s as real);
    QuotientAbove(x, x / s as real, s as real, f as real);
    QuotientBelow(x, x / s as real, s as real, f as real);
    RealProduct(f, s);
  }

  lemma QuotientRange(n: nat, s: nat, f: int)
    requires s > 0 && f * s <= n < f * s + s && 256 * s <= n < 512 * s
    ensures 256 <= f < 512
  {
    MulOrder(s, f, 512);
    assert (f + 1) * s == f * s + s;
    MulOrder(s, 256, f + 1);
  }

  lemma OctaveSpan(n: nat)
    requires n >= 1 && FloorLog2(n) >= 8
    ensures 256 * Pow2(FloorLog2(n) - 8) <= n < 512 * Pow2(FloorLog2(n) - 8)
  {
    var e := FloorLog2(n) - 8;
    FloorLog2Bounds(n);
    Pow2Values();
    Pow2Add(e, 8);
    Pow2Add(e, 9);
    assert Pow2(9) == 512;
  }

  lemma SubRange(ns: real)
    requires ns >= 256.0
    ensures FloorLog2(ns.Floor) >= 8
    ensures 256 <= (ns / Pow2(FloorLog2(ns.Floor) - 8) as real).Floor < 512
  {
    OctaveAtLeast(ns);
    OctaveSpan(ns.Floor);
    var s := Pow2(FloorLog2(ns.Floor) - 8);
    var f := (ns / s as real).Floor;
    FloorQuotient(ns, s, f);
    QuotientRange(ns.Floor, s, f);
  }

  lemma MulOrder(s: nat, a: int, b: int)
    requires s > 0
    ensures a * s < b * s ==> a < b
  {
    if b <= a { assert (a - b) * s >= 0; }
  }

  lemma OctaveAtMost(n: nat)
    requires 1 <= n < 0x4000_0000_0000
    ensures FloorLog2(n) <= 45
  {
    FloorLog2Bounds(n);
    Pow2Values();
    if FloorLog2(n) > 45 { Pow2Monotone(46, FloorLog2(n)); }
  }

  lemma ScaledBucket(ns: real, e: nat, f: nat)
    requires ns >= 256.0 && 256 <= f < 512 && f == (ns / Pow2(e) as real).Floor
    ensures Lower((e + 1) * 256 + f - 256) as real <= ns < Lower((e + 1) * 256 + f - 256 + 1) as real
  {
    var s := Pow2(e);
    FloorQuotient(ns, s, f);
    assert f * s == Scaled(e, f - 256);
    LowerAt(e, f - 256);
    LowerNext(e, f - 256);
  }

  /** A sample below 2^46 lies in the interval of its bucket. */
  lemma InBucket(ns: real)
    requires 0.0 <= ns < 0x4000_0000_0000 as real
    ensures Lower(BucketIndex(ns)) as real <= ns < Lower(BucketIndex(ns) + 1) as real
  {
    if ns >= 256.0 {
      OctaveAtMost(ns.Floor);
      SubRange(ns);
      var e := FloorLog2(ns.Floor) - 8;
      var f := (ns / Pow2(e) as real).Floor;
      assert BucketIndex(ns) == (e + 1) * 256 + f - 256;
      ScaledBucket(ns, e, f);
    } else {
      SmallBucket(ns.Floor);
    }
  }

  lemma SmallBucket(n: nat)
    requires n < 256
    ensures Lower(n) == n && Lower(n + 1) == n + 1
  {
    LowerAt(0, 0);
    assert Pow2(0) == 1;
  }

  lemma IndexParts(e: nat, sub: nat)
    requires sub < 256
    ensures (e * 256 + sub) / 256 == e && (e * 256 + sub) % 256 == sub
  {
  }

  lemma LowerAt(e: nat, sub: nat)
    requires sub < 256
    ensures Lower((e + 1) * 256 + sub) == Scaled(e, sub)
  {
    IndexParts(e, sub);
  }

  lemma ScaledNext(e: nat, sub: nat)
    ensures Scaled(e, sub + 1) == Scaled(e, sub) + Pow2(e)
    ensures Scaled(e + 1, 0) == Scaled(e, 255) + Pow2(e)
  {
    assert Pow2(e + 1) == 2 * Pow2(e);
  }

  lemma LowerNext(e: nat, sub: nat)
    requires sub < 256
    ensures Lower((e + 1) * 256 + sub + 1) == Scaled(e, sub) + Pow2(e)
  {
    ScaledNext(e, sub);
    if sub + 1 < 256 {
      LowerAt(e, sub + 1);
    } else {
      LowerAt(e + 1, 0);
    }
  }

  lemma LowerStep(i: nat)
    ensures Lower(i) < Lower(i + 1)
  {
    if i >= 256 {
      var e, sub := (i - 256) / 256, (i - 256) % 256;
      assert i == (e + 1) * 256 + sub;
      LowerAt(e, sub);
      LowerNext(e, sub);
    } else if i == 255 {
      LowerAt(0, 0);
      assert Pow2(0) == 1;
    }
  }

  lemma {:induction false} LowerMonotone(i: nat, j: nat)
    requires i <= j
    ensures Lower(i) <= Lower(j)
    decreases j
  {
    if i < j {
      LowerMonotone(i, j - 1);
      LowerStep(j - 1);
    }
  }

  /** Intervals of different buckets do not meet. */
  lemma BucketUnique(i: nat, j: nat, x: real)
    requires Lower(i) as real <= x < Lower(i + 1) as real
    requires Lower(j) as real <= x < Lower(j + 1) as real
    ensures i == j
  {
    if i < j { LowerMonotone(i + 1, j); }
    if j < i { LowerMonotone(j + 1, i); }
  }

  lemma TopOfRange()
    ensures Lower(BUCKETS) == 0x4000_0000_0000
  {
    LowerAt(38, 0);
    Pow2Values();
    assert Pow2(38) == 2 * Pow2(37);
  }

  lemma LargeOctave(n: nat)
    requires n >= 0x4000_0000_0000
    ensures FloorLog2(n) > 45
  {
    FloorLog2Bounds(n);
    Pow2Values();
    if FloorLog2(n) <= 45 { Pow2Monotone(FloorLog2(n) + 1, 46); }
  }

  lemma OverflowBucket(ns: real)
    requires ns >= 0x4000_0000_0000 as real
    ensures BucketIndex(ns) == BUCKETS - 1
  {
    LargeOctave(ns.Floor);
  }

  /** A larger sample never lands in a lower bucket. */
  lemma IndexMonotone(x: real, y: real)
    requires 0.0 <= x <= y
    ensures BucketIndex(x) <= BucketIndex(y)
  {
    if y < 0x4000_0000_0000 as real {
      InBucket(x);
      InBucket(y);
      if BucketIndex(y) < BucketIndex(x) { LowerMonotone(BucketIndex(y) + 1, BucketIndex(x)); }
    } else {
      OverflowBucket(y);
    }
  }

  // ---------------------------------------------------------------- representatives

  lemma ValueInBucket(i: nat)
    requires i < BUCKETS
    ensures Lower(i) as real <= BucketValue(i) < Lower(i + 1) as real
    ensures i >= 256 ==> BucketValue(i) * 2.0 == Lower(i) as real + Lower(i + 1) as real
  {
    if i >= 256 {
      var e, sub := (i - 256) / 256, (i - 256) % 256;
      assert i == (e + 1) * 256 + sub;
      LowerAt(e, sub);
      LowerNext(e, sub);
    } else {
      LowerStep(i);
    }
  }

  /** The bucket a reported value falls in is the bucket it reports. */
  lemma IndexOfValue(i: nat)
    requires i < BUCKETS
    ensures BucketIndex(BucketValue(i)) == i
  {
    ValueInBucket(i);
    TopOfRange();
    LowerMonotone(i + 1, BUCKETS);
    InBucket(BucketValue(i));
    BucketUnique(i, BucketIndex(BucketValue(i)), BucketValue(i));
  }

  function Distance(a: real, b: real): (d: real) { if a <= b then b - a else a - b }

  /** `quantizationNs`: the error bound the histogram claims for a value. */
  function QuantizationNs(v: real): (b: real) { v / 512.0 }

  /** The bound holds in every bucket above the exact ones, integer sample or not. */
  lemma QuantizationBound(x: real)
    requires 256.0 <= x < 0x4000_0000_0000 as real
    ensures Distance(BucketValue(BucketIndex(x)), x) <= QuantizationNs(x)
  {
    InBucket(x);
    var i := BucketIndex(x);
    ValueInBucket(i);
    LowerWidth(i, x);
  }

  lemma LowerWidth(i: nat, x: real)
    requires Lower(i) as real <= x < Lower(i + 1) as real && x >= 256.0
    ensures i >= 256 && (Lower(i + 1) - Lower(i)) * 256 <= Lower(i)
  {
    if i < 256 {
      assert Lower(256) == 256 by { LowerAt(0, 0); assert Pow2(0) == 1; }
      LowerMonotone(i + 1, 256);
    }
    var e, sub := (i - 256) / 256, (i - 256) % 256;
    assert i == (e + 1) * 256 + sub;
    LowerAt(e, sub);
    LowerNext(e, sub);
    var s := Pow2(e);
    assert (256 + sub) * s >= 256 * s;
  }

  lemma SmallIntegerExact(n: nat)
    requires n < 256
    ensures BucketValue(BucketIndex(n as real)) == n as real
  {
  }

  /**
   For an integer sample the claimed bound holds exactly up to this limit,
   which is a little above 2^46 because the last bucket is reported below it.
   */
  lemma QuantizationExact(n: nat)
    ensures Distance(BucketValue(BucketIndex(n as real)), n as real) <= QuantizationNs(n as real)
      <==> 511 * n <= 1023 * 512 * 0x10_0000_0000
  {
    if n < 256 {
      SmallIntegerExact(n);
    } else if n < 0x4000_0000_0000 {
      QuantizationBound(n as real);
    } else {
      OverflowBucket(n as real);
      LastValue();
    }
  }

  lemma LastValue()
    ensures BucketValue(BUCKETS - 1) == (1023 * 0x10_0000_0000) as real
  {
    Pow2Values();
    assert (9727) / 256 == 37 && (9727) % 256 == 255;
  }
}
