/**
 Counting the events of a run by an integer key, and fixed-width counters that
 wrap to zero. A bank of counters adds up to the number of events it was given
 exactly when none of them has reached its width.
 */
module Tally {
  import opened Sequences

  /** Events whose key lies in [lo, hi). */
  ghost function Hits<E>(run: seq<E>, key: E -> int, lo: int, hi: int): (n: nat)
    ensures n <= |run|
  {
    if run == [] then 0
    else Hits(run[..|run| - 1], key, lo, hi) + if lo <= key(run[|run| - 1]) < hi then 1 else 0
  }

  ghost function HitsAt<E>(run: seq<E>, key: E -> int, i: int): (n: nat) { Hits(run, key, i, i + 1) }

  lemma {:induction false} HitsConcat<E>(a: seq<E>, b: seq<E>, key: E -> int, lo: int, hi: int)
    ensures Hits(a + b, key, lo, hi) == Hits(a, key, lo, hi) + Hits(b, key, lo, hi)
  {
    if b == [] {
      assert a + b == a;
    } else {
      assert (a + b)[..|a + b| - 1] == a + b[..|b| - 1];
      HitsConcat(a, b[..|b| - 1], key, lo, hi);
    }
  }

  lemma {:induction false} HitsSplit<E>(run: seq<E>, key: E -> int, lo: int, mid: int, hi: int)
    requires lo <= mid <= hi
    ensures Hits(run, key, lo, hi) == Hits(run, key, lo, mid) + Hits(run, key, mid, hi)
  {
    if run != [] { HitsSplit(run[..|run| - 1], key, lo, mid, hi); }
  }

  lemma {:induction false} HitsEmpty<E>(run: seq<E>, key: E -> int, lo: int)
    ensures Hits(run, key, lo, lo) == 0
  {
    if run != [] { HitsEmpty(run[..|run| - 1], key, lo); }
  }

  lemma HitsRemove<E>(run: seq<E>, j: nat, key: E -> int, lo: int, hi: int)
    requires j < |run|
    ensures Hits(run, key, lo, hi) ==
      Hits(run[..j] + run[j + 1..], key, lo, hi) + if lo <= key(run[j]) < hi then 1 else 0
  {
    var a, b := run[..j], run[j + 1..];
    assert run == (a + [run[j]]) + b;
    HitsConcat(a + [run[j]], b, key, lo, hi);
    HitsNext(a, run[j], key, lo, hi);
    HitsConcat(a, b, key, lo, hi);
  }

  /** Counting does not depend on the order of the events. */
  lemma {:induction false} HitsPermutation<E>(a: seq<E>, b: seq<E>, key: E -> int, lo: int, hi: int)
    requires multiset(a) == multiset(b)
    ensures Hits(a, key, lo, hi) == Hits(b, key, lo, hi)
  {
    if a == [] {
      assert |multiset(b)| == 0;
    } else {
      assert a[|a| - 1] in multiset(b);
      var j :| 0 <= j < |b| && b[j] == a[|a| - 1];
      RemoveBoth(a, |a| - 1, b, j);
      assert a[..|a| - 1] + a[|a|..] == a[..|a| - 1];
      HitsPermutation(a[..|a| - 1], b[..j] + b[j + 1..], key, lo, hi);
      HitsRemove(b, j, key, lo, hi);
    }
  }

  /** The events with a non-negative key, in order. */
  ghost function Kept<E>(run: seq<E>, key: E -> int): (r: seq<E>) {
    if run == [] then []
    else
      var e := run[|run| - 1];
      Kept(run[..|run| - 1], key) + if key(e) >= 0 then [e] else []
  }

  lemma {:induction false} KeptMembers<E>(run: seq<E>, key: E -> int, e: E)
    ensures e in Kept(run, key) <==> e in run && key(e) >= 0
  {
    if run != [] {
      KeptMembers(run[..|run| - 1], key, e);
      assert run == run[..|run| - 1] + [run[|run| - 1]];
    }
  }

  lemma HitsNext<E>(run: seq<E>, e: E, key: E -> int, lo: int, hi: int)
    ensures Hits(run + [e], key, lo, hi) == Hits(run, key, lo, hi) + if lo <= key(e) < hi then 1 else 0
  {
    assert (run + [e])[..|run|] == run;
  }

  lemma {:induction false} HitsKept<E>(run: seq<E>, key: E -> int, lo: nat, hi: int)
    ensures Hits(Kept(run, key), key, lo, hi) == Hits(run, key, lo, hi)
  {
    if run != [] {
      var before, e := run[..|run| - 1], run[|run| - 1];
      HitsKept(before, key, lo, hi);
      HitsNext(Kept(before, key), e, key, lo, hi);
      assert key(e) < 0 ==> Kept(run, key) == Kept(before, key);
    }
  }

  lemma {:induction false} HitsAll<E>(run: seq<E>, key: E -> int, n: int)
    requires forall e :: e in run ==> key(e) < n
    ensures Hits(run, key, 0, n) == |Kept(run, key)|
  {
    if run != [] { HitsAll(run[..|run| - 1], key, n); }
  }

  /** A run of equal events. */
  lemma {:induction false} HitsRepeated<E>(n: nat, e: E, key: E -> int, lo: int, hi: int)
    ensures Hits(Repeat(n, e), key, lo, hi) == if lo <= key(e) < hi then n else 0
  {
    if n > 0 {
      RepeatPrefix(n, e);
      HitsRepeated(n - 1, e, key, lo, hi);
    }
  }

  // ---------------------------------------------------------------- events with a property

  ghost function Indicator<E>(p: E -> bool): (key: E -> int) { e => if p(e) then 0 else -1 }

  /** How many events have the property. */
  ghost function NumberOf<E>(run: seq<E>, p: E -> bool): (n: nat) { HitsAt(run, Indicator(p), 0) }

  lemma NumberOfExact<E>(run: seq<E>, p: E -> bool)
    ensures run == [] ==> NumberOf(run, p) == 0
    ensures run != [] ==> NumberOf(run, p) == NumberOf(run[..|run| - 1], p) + if p(run[|run| - 1]) then 1 else 0
  {
  }

  /** An interval of keys is a property. */
  lemma {:induction false} HitsNumber<E>(run: seq<E>, key: E -> int, lo: int, hi: int, p: E -> bool)
    requires forall i :: 0 <= i < |run| ==> (lo <= key(run[i]) < hi <==> p(run[i]))
    ensures Hits(run, key, lo, hi) == NumberOf(run, p)
  {
    NumberOfExact(run, p);
    if run != [] { HitsNumber(run[..|run| - 1], key, lo, hi, p); }
  }

  lemma {:induction false} NumberOfHead<E>(run: seq<E>, p: E -> bool)
    requires run != []
    ensures NumberOf(run, p) == (if p(run[0]) then 1 else 0) + NumberOf(run[1..], p)
  {
    var key, head := Indicator(p), [run[0]];
    assert run == head + run[1..];
    HitsConcat(head, run[1..], key, 0, 1);
    assert head[..0] == [];
  }

  lemma NumberOfPermutation<E>(a: seq<E>, b: seq<E>, p: E -> bool)
    requires multiset(a) == multiset(b)
    ensures NumberOf(a, p) == NumberOf(b, p)
  {
    HitsPermutation(a, b, Indicator(p), 0, 1);
  }

  lemma {:induction false} NumberAtLeast<E>(run: seq<E>, p: E -> bool, k: nat)
    requires k <= |run| && forall i :: 0 <= i < k ==> p(run[i])
    ensures NumberOf(run, p) >= k
  {
    if k > 0 {
      NumberOfExact(run, p);
      NumberAtLeast(run[..|run| - 1], p, if k == |run| then k - 1 else k);
    }
  }

  lemma {:induction false} NumberAtMost<E>(run: seq<E>, p: E -> bool, k: nat)
    requires forall i :: k <= i < |run| ==> !p(run[i])
    ensures NumberOf(run, p) <= k
  {
    if |run| > k {
      NumberOfExact(run, p);
      NumberAtMost(run[..|run| - 1], p, k);
    }
  }

  lemma {:induction false} NumberOfImplied<E>(run: seq<E>, p: E -> bool, q: E -> bool)
    requires forall i :: 0 <= i < |run| && p(run[i]) ==> q(run[i])
    ensures NumberOf(run, p) <= NumberOf(run, q)
  {
    NumberOfExact(run, p);
    NumberOfExact(run, q);
    if run != [] { NumberOfImplied(run[..|run| - 1], p, q); }
  }

  /** Dropping events without the property changes nothing. */
  lemma {:induction false} NumberOfKept<E>(run: seq<E>, key: E -> int, p: E -> bool)
    requires forall i :: 0 <= i < |run| && p(run[i]) ==> key(run[i]) >= 0
    ensures NumberOf(Kept(run, key), p) == NumberOf(run, p)
  {
    if run != [] {
      var before, e := run[..|run| - 1], run[|run| - 1];
      NumberOfKept(before, key, p);
      NumberOfExact(run, p);
      HitsNext(Kept(before, key), e, Indicator(p), 0, 1);
      assert key(e) < 0 ==> Kept(run, key) == Kept(before, key);
    }
  }

  // ---------------------------------------------------------------- counters that wrap

  /** One increment of a counter that holds values below `width`. */
  function Bumped(c: nat, width: nat): (r: nat) { if c + 1 == width then 0 else c + 1 }

  /** A counter after `n` increments from zero. */
  ghost function Wrapped(n: nat, width: nat): (c: nat) {
    if n == 0 then 0 else Bumped(Wrapped(n - 1, width), width)
  }

  lemma {:induction false} WrappedBelow(n: nat, width: nat)
    requires width > 0
    ensures Wrapped(n, width) <= n && Wrapped(n, width) < width
    ensures Wrapped(n, width) == n <==> n < width
  {
    if n > 0 { WrappedBelow(n - 1, width); }
  }

  function BumpAt(counts: seq<nat>, i: int, width: nat): (r: seq<nat>)
    ensures |r| == |counts|
  {
    if 0 <= i < |counts| then counts[i := Bumped(counts[i], width)] else counts
  }

  /** A bank of `n` counters after a run; events keyed outside it touch nothing. */
  function Bank<E>(run: seq<E>, key: E -> int, n: nat, width: nat): (counts: seq<nat>)
    ensures |counts| == n
  {
    if run == [] then Repeat(n, 0)
    else BumpAt(Bank(run[..|run| - 1], key, n, width), key(run[|run| - 1]), width)
  }

  lemma {:induction false} BankAt<E>(run: seq<E>, key: E -> int, n: nat, width: nat, i: nat)
    requires i < n
    ensures Bank(run, key, n, width)[i] == Wrapped(HitsAt(run, key, i), width)
  {
    if run != [] { BankAt(run[..|run| - 1], key, n, width, i); }
  }

  ghost predicate NoneWrapped<E>(run: seq<E>, key: E -> int, n: nat, width: nat) {
    forall i :: 0 <= i < n ==> HitsAt(run, key, i) < width
  }

  lemma {:induction false} PartialSum<E>(run: seq<E>, key: E -> int, n: nat, width: nat, k: nat)
    requires k <= n && width > 0
    ensures Sum(Bank(run, key, n, width)[..k]) <= Hits(run, key, 0, k)
    ensures Sum(Bank(run, key, n, width)[..k]) == Hits(run, key, 0, k) <==> NoneWrapped(run, key, k, width)
  {
    var bank := Bank(run, key, n, width);
    if k == 0 {
      HitsEmpty(run, key, 0);
    } else {
      PartialSum(run, key, n, width, k - 1);
      assert bank[..k][..k - 1] == bank[..k - 1];
      BankAt(run, key, n, width, k - 1);
      WrappedBelow(HitsAt(run, key, k - 1), width);
      HitsSplit(run, key, 0, k - 1, k);
    }
  }

  /** A bank adds up to the events it was given exactly when no counter has wrapped. */
  lemma BankSum<E>(run: seq<E>, key: E -> int, n: nat, width: nat)
    requires width > 0
    ensures Sum(Bank(run, key, n, width)) <= Hits(run, key, 0, n)
    ensures Sum(Bank(run, key, n, width)) == Hits(run, key, 0, n) <==> NoneWrapped(run, key, n, width)
  {
    assert Bank(run, key, n, width)[..n] == Bank(run, key, n, width);
    PartialSum(run, key, n, width, n);
  }

  lemma ShortRunNeverWraps<E>(run: seq<E>, key: E -> int, n: nat, width: nat)
    requires |run| < width
    ensures NoneWrapped(run, key, n, width)
  {
  }

  /** Two banks that share the events between them, likewise. */
  lemma TwoBanksSum<E>(run: seq<E>, a: E -> int, b: E -> int, n: nat, width: nat, total: nat)
    requires width > 0 && Hits(run, a, 0, n) + Hits(run, b, 0, n) == total
    ensures Sum(Bank(run, a, n, width)) + Sum(Bank(run, b, n, width)) == total
      <==> NoneWrapped(run, a, n, width) && NoneWrapped(run, b, n, width)
  {
    BankSum(run, a, n, width);
    BankSum(run, b, n, width);
  }
}
