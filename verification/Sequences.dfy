/** Slices, constant sequences, maps, concatenations and sums. */
module Sequences {

  lemma SliceOfSlice<T>(s: seq<T>, a: nat, b: nat, c: nat, d: nat)
    requires a <= b <= |s| && c <= d <= b - a
    ensures s[a..b][c..d] == s[a + c..a + d]
  {
    forall i | 0 <= i < d - c ensures s[a..b][c..d][i] == s[a + c..a + d][i] {
      assert s[a..b][c + i] == s[a + c + i];
    }
  }

  /** Permutations stay permutations without one and the same element. */
  lemma RemoveBoth<T>(a: seq<T>, i: nat, b: seq<T>, j: nat)
    requires i < |a| && j < |b| && a[i] == b[j] && multiset(a) == multiset(b)
    ensures multiset(a[..i] + a[i + 1..]) == multiset(b[..j] + b[j + 1..])
  {
    MultisetWithout(a, i);
    MultisetWithout(b, j);
  }

  lemma MultisetWithout<T>(s: seq<T>, i: nat)
    requires i < |s|
    ensures multiset(s[..i] + s[i + 1..]) == multiset(s) - multiset{s[i]}
  {
    assert s == s[..i] + [s[i]] + s[i + 1..];
  }

  function Repeat<T>(n: nat, x: T): (r: seq<T>)
    ensures |r| == n && forall i :: 0 <= i < n ==> r[i] == x
  {
    seq(n, _ => x)
  }

  lemma RepeatPrefix<T>(n: nat, x: T)
    requires n > 0
    ensures Repeat(n, x)[..n - 1] == Repeat(n - 1, x)
  {
  }

  ghost function Mapped<A, B>(f: A -> B, xs: seq<A>): (r: seq<B>)
    ensures |r| == |xs|
  {
    if xs == [] then [] else [f(xs[0])] + Mapped(f, xs[1..])
  }

  lemma {:induction false} MappedConcat<A, B>(f: A -> B, a: seq<A>, b: seq<A>)
    ensures Mapped(f, a + b) == Mapped(f, a) + Mapped(f, b)
  {
    if a == [] {
      assert a + b == b;
    } else {
      assert (a + b)[1..] == a[1..] + b;
      MappedConcat(f, a[1..], b);
    }
  }

  /** What `f` makes of the elements, one after the other. */
  function ConcatMap<T, U>(xs: seq<T>, f: T --> seq<U>): (r: seq<U>)
    requires forall i :: 0 <= i < |xs| ==> f.requires(xs[i])
  {
    if xs == [] then [] else f(xs[0]) + ConcatMap(xs[1..], f)
  }

  lemma {:induction false} ConcatMapConcat<T, U>(a: seq<T>, b: seq<T>, f: T --> seq<U>)
    requires forall i :: 0 <= i < |a| ==> f.requires(a[i])
    requires forall i :: 0 <= i < |b| ==> f.requires(b[i])
    ensures forall i :: 0 <= i < |a + b| ==> f.requires((a + b)[i])
    ensures ConcatMap(a + b, f) == ConcatMap(a, f) + ConcatMap(b, f)
  {
    if a == [] {
      assert a + b == b;
    } else {
      assert (a + b)[1..] == a[1..] + b;
      ConcatMapConcat(a[1..], b, f);
    }
  }

  lemma ConcatMapNext<T, U>(xs: seq<T>, i: nat, f: T --> seq<U>)
    requires i < |xs| && forall k :: 0 <= k <= i ==> f.requires(xs[k])
    ensures ConcatMap(xs[..i + 1], f) == ConcatMap(xs[..i], f) + f(xs[i])
  {
    var x := [xs[i]];
    assert xs[..i] + x == xs[..i + 1];
    ConcatMapConcat(xs[..i], x, f);
    assert ConcatMap(x, f) == f(x[0]) + ConcatMap(x[1..], f);
  }

  lemma {:induction false} ConcatMapEmpty<T, U>(xs: seq<T>, f: T -> seq<U>)
    ensures ConcatMap(xs, f) == [] <==> forall x :: x in xs ==> f(x) == []
  {
    if xs != [] {
      ConcatMapEmpty(xs[1..], f);
      assert xs == [xs[0]] + xs[1..];
    }
  }

  lemma {:induction false} ConcatMapMembers<T, U>(xs: seq<T>, f: T -> seq<U>, y: U)
    ensures y in ConcatMap(xs, f) <==> exists x :: x in xs && y in f(x)
  {
    if xs != [] {
      ConcatMapMembers(xs[1..], f, y);
      assert xs == [xs[0]] + xs[1..];
    }
  }

  function Same<T>(x: T): T { x }

  ghost function Flatten<T>(parts: seq<seq<T>>): (r: seq<T>) { ConcatMap(parts, Same) }

  lemma FlattenConcat<T>(a: seq<seq<T>>, b: seq<seq<T>>)
    ensures Flatten(a + b) == Flatten(a) + Flatten(b)
  {
    ConcatMapConcat(a, b, Same);
  }

  lemma FlattenNext<T>(parts: seq<seq<T>>, i: nat)
    requires i < |parts|
    ensures Flatten(parts[..i + 1]) == Flatten(parts[..i]) + parts[i]
  {
    ConcatMapNext(parts, i, Same);
  }

  lemma FlattenAppend<T>(parts: seq<seq<T>>, x: seq<T>)
    ensures Flatten(parts + [x]) == Flatten(parts) + x
  {
    assert (parts + [x])[..|parts|] == parts && (parts + [x])[..|parts| + 1] == parts + [x];
    FlattenNext(parts + [x], |parts|);
  }

  lemma FlattenPrefix<T>(parts: seq<seq<T>>, i: nat)
    requires i <= |parts|
    ensures |Flatten(parts[..i])| <= |Flatten(parts)|
  {
    assert parts[..i] + parts[i..] == parts;
    FlattenConcat(parts[..i], parts[i..]);
  }

  function Sum(xs: seq<nat>): (n: nat) {
    if xs == [] then 0 else Sum(xs[..|xs| - 1]) + xs[|xs| - 1]
  }

  lemma SumAppend(xs: seq<nat>, x: nat)
    ensures Sum(xs + [x]) == Sum(xs) + x
  {
    assert (xs + [x])[..|xs|] == xs;
  }

  lemma {:induction false} SumAtMost(xs: seq<nat>, bound: nat)
    requires forall i :: 0 <= i < |xs| ==> xs[i] <= bound
    ensures Sum(xs) <= bound * |xs|
  {
    if xs != [] {
      SumAtMost(xs[..|xs| - 1], bound);
      assert bound * |xs| == bound * (|xs| - 1) + bound;
    }
  }

  lemma {:induction false} SumPrefixes(xs: seq<nat>, i: nat, j: nat)
    requires i <= j <= |xs|
    ensures Sum(xs[..i]) <= Sum(xs[..j])
    decreases j
  {
    if i < j {
      SumPrefixes(xs, i, j - 1);
      assert xs[..j][..j - 1] == xs[..j - 1];
    }
  }

  lemma {:induction false} SumFlat(xs: seq<nat>, i: nat, j: nat)
    requires i <= j <= |xs| && forall k :: i <= k < j ==> xs[k] == 0
    ensures Sum(xs[..i]) == Sum(xs[..j])
    decreases j
  {
    if i < j {
      SumFlat(xs, i, j - 1);
      assert xs[..j][..j - 1] == xs[..j - 1];
    }
  }
}
