/**
 Stable sorting by a string key, in the code-unit order of JavaScript's `<`.

 The release tooling sorts tar members, locked assets and manifest entries this
 way. `Sort` is pinned down by three facts: its result is ordered, it is a
 permutation of the input, and elements with equal keys keep their order.
 */
module Sorting {

  /** Strict lexicographic order by code unit. */
  predicate Below(a: string, b: string) {
    if |b| == 0 then false
    else if |a| == 0 then true
    else a[0] < b[0] || (a[0] == b[0] && Below(a[1..], b[1..]))
  }

  /** `a` and `b` agree before `k`; there `a` ends first or has the smaller code unit. */
  ghost predicate SmallerAt(a: string, b: string, k: nat) {
    k < |b| && k <= |a| && a[..k] == b[..k] && (k == |a| || a[k] < b[k])
  }

  /** The order is decided at the first difference, and a prefix comes first. */
  lemma BelowExact(a: string, b: string)
    ensures Below(a, b) <==> exists k :: SmallerAt(a, b, k)
  {
    if Below(a, b) {
      var k := BelowAt(a, b);
    }
    if k: nat :| SmallerAt(a, b, k) {
      BelowFrom(a, b, k);
    }
  }

  lemma {:induction false} BelowAt(a: string, b: string) returns (k: nat)
    requires Below(a, b)
    ensures SmallerAt(a, b, k)
  {
    if a == "" || a[0] < b[0] {
      k := 0;
    } else {
      var i := BelowAt(a[1..], b[1..]);
      k := i + 1;
      assert a[..k] == [a[0]] + a[1..][..i] && b[..k] == [b[0]] + b[1..][..i];
    }
  }

  lemma {:induction false} BelowFrom(a: string, b: string, k: nat)
    requires SmallerAt(a, b, k)
    ensures Below(a, b)
  {
    if k > 0 {
      assert a[0] == a[..k][0] == b[..k][0] == b[0];
      assert a[1..][..k - 1] == a[..k][1..] && b[1..][..k - 1] == b[..k][1..];
      BelowFrom(a[1..], b[1..], k - 1);
    }
  }

  lemma {:induction false} BelowIrreflexive(a: string)
    ensures !Below(a, a)
  {
    if |a| > 0 { BelowIrreflexive(a[1..]); }
  }

  lemma {:induction false} BelowTransitive(a: string, b: string, c: string)
    requires Below(a, b) && Below(b, c)
    ensures Below(a, c)
  {
    if |a| > 0 && a[0] == b[0] && b[0] == c[0] {
      BelowTransitive(a[1..], b[1..], c[1..]);
    }
  }

  lemma {:induction false} BelowTotal(a: string, b: string)
    ensures Below(a, b) || a == b || Below(b, a)
  {
    if |a| > 0 && |b| > 0 && a[0] == b[0] {
      BelowTotal(a[1..], b[1..]);
      if a[1..] == b[1..] { assert a == [a[0]] + a[1..] == b; }
    }
  }

  /** Non-strict order is transitive. */
  lemma NotBelowTransitive(a: string, b: string, c: string)
    requires !Below(b, a) && !Below(c, b)
    ensures !Below(c, a)
  {
    BelowTotal(a, b);
    BelowTotal(b, c);
    if Below(c, a) {
      if a == b || b == c {
      } else {
        BelowTransitive(a, b, c);
        BelowTransitive(a, c, a);
        BelowIrreflexive(a);
      }
    }
  }

  ghost predicate SortedBy<T(!new)>(s: seq<T>, key: T -> string) {
    forall i, j :: 0 <= i < j < |s| ==> !Below(key(s[j]), key(s[i]))
  }

  function Insert<T>(x: T, s: seq<T>, key: T -> string): (r: seq<T>)
    ensures multiset(r) == multiset{x} + multiset(s)
  {
    if s == [] || !Below(key(s[0]), key(x)) then [x] + s
    else
      assert s == [s[0]] + s[1..];
      [s[0]] + Insert(x, s[1..], key)
  }

  function Sort<T>(s: seq<T>, key: T -> string): (r: seq<T>)
    ensures multiset(r) == multiset(s)
  {
    if s == [] then []
    else
      assert s == [s[0]] + s[1..];
      Insert(s[0], Sort(s[1..], key), key)
  }

  lemma InMultiset<T>(a: seq<T>, b: seq<T>, i: nat)
    requires multiset(a) == multiset(b) && i < |a|
    ensures a[i] in b
  {
    assert a[i] in multiset(a);
  }

  lemma PermutationLength<T>(a: seq<T>, b: seq<T>)
    requires multiset(a) == multiset(b)
    ensures |a| == |b|
  {
    assert |multiset(a)| == |multiset(b)|;
  }

  lemma {:induction false} InsertSorted<T(!new)>(x: T, s: seq<T>, key: T -> string)
    requires SortedBy(s, key)
    ensures SortedBy(Insert(x, s, key), key)
  {
    var r := Insert(x, s, key);
    if s == [] {
    } else if !Below(key(s[0]), key(x)) {
      forall i, j | 0 <= i < j < |r| ensures !Below(key(r[j]), key(r[i])) {
        if i == 0 && j > 1 { NotBelowTransitive(key(x), key(s[0]), key(s[j - 1])); }
      }
    } else {
      var tail := Insert(x, s[1..], key);
      InsertSorted(x, s[1..], key);
      forall i, j | 0 <= i < j < |r| ensures !Below(key(r[j]), key(r[i])) {
        if i == 0 {
          assert r[j] == tail[j - 1] && r[j] in multiset(tail);
          if r[j] == x {
            if Below(key(x), key(s[0])) {
              BelowTransitive(key(x), key(s[0]), key(x));
              BelowIrreflexive(key(x));
            }
          } else {
            assert r[j] in multiset(s[1..]);
            var k :| 0 <= k < |s[1..]| && s[1..][k] == r[j];
            assert r[j] == s[k + 1];
          }
        } else {
          assert r[i] == tail[i - 1] && r[j] == tail[j - 1];
        }
      }
    }
  }

  /** The result is in order. */
  lemma {:induction false} SortSorted<T(!new)>(s: seq<T>, key: T -> string)
    ensures SortedBy(Sort(s, key), key)
  {
    if s != [] {
      SortSorted(s[1..], key);
      InsertSorted(s[0], Sort(s[1..], key), key);
    }
  }

  /** Sorting a sorted list changes nothing, equal keys included. */
  lemma {:induction false} SortFixpoint<T(!new)>(s: seq<T>, key: T -> string)
    requires SortedBy(s, key)
    ensures Sort(s, key) == s
  {
    if s != [] {
      SortFixpoint(s[1..], key);
      assert |s| > 1 ==> !Below(key(s[1]), key(s[0]));
      assert s == [s[0]] + s[1..];
    }
  }

  /** The elements whose key is `k`, in list order. */
  ghost function WithKey<T>(s: seq<T>, key: T -> string, k: string): seq<T> {
    if s == [] then []
    else (if key(s[0]) == k then [s[0]] else []) + WithKey(s[1..], key, k)
  }

  lemma {:induction false} InsertStable<T>(x: T, s: seq<T>, key: T -> string, k: string)
    ensures WithKey(Insert(x, s, key), key, k) == WithKey([x] + s, key, k)
  {
    if s != [] && Below(key(s[0]), key(x)) {
      BelowIrreflexive(key(x));
      InsertStable(x, s[1..], key, k);
      var r := Insert(x, s, key);
      assert r[1..] == Insert(x, s[1..], key);
      assert ([x] + s[1..])[1..] == s[1..];
      assert ([x] + s)[1..] == s;
    }
  }

  /** Equal keys keep their input order. */
  lemma {:induction false} SortStable<T>(s: seq<T>, key: T -> string, k: string)
    ensures WithKey(Sort(s, key), key, k) == WithKey(s, key, k)
  {
    if s != [] {
      SortStable(s[1..], key, k);
      InsertStable(s[0], Sort(s[1..], key), key, k);
      var r := Sort(s[1..], key);
      assert ([s[0]] + r)[1..] == r;
    }
  }

  ghost predicate KeyDetermines<T(!new)>(s: seq<T>, key: T -> string) {
    forall x, y :: x in s && y in s && key(x) == key(y) ==> x == y
  }

  lemma SortedHeadLeast<T(!new)>(a: seq<T>, x: T, key: T -> string)
    requires SortedBy(a, key) && x in a
    ensures !Below(key(x), key(a[0]))
  {
    BelowIrreflexive(key(a[0]));
  }

  lemma SameHead<T(!new)>(a: seq<T>, b: seq<T>, key: T -> string)
    requires SortedBy(a, key) && SortedBy(b, key) && KeyDetermines(a, key)
    requires a != [] && b != [] && multiset(a) == multiset(b)
    ensures a[0] == b[0]
  {
    InMultiset(a, b, 0);
    InMultiset(b, a, 0);
    SortedHeadLeast(a, b[0], key);
    SortedHeadLeast(b, a[0], key);
    BelowTotal(key(a[0]), key(b[0]));
  }

  lemma SameTails<T>(a: seq<T>, b: seq<T>)
    requires a != [] && b != [] && a[0] == b[0] && multiset(a) == multiset(b)
    ensures multiset(a[1..]) == multiset(b[1..])
  {
    assert a == [a[0]] + a[1..] && b == [b[0]] + b[1..];
    assert multiset(a[1..]) == multiset(a) - multiset{a[0]};
    assert multiset(b[1..]) == multiset(b) - multiset{b[0]};
  }

  /** When the key determines the element, order and contents determine the list. */
  lemma {:induction false} SortedUnique<T(!new)>(a: seq<T>, b: seq<T>, key: T -> string)
    requires SortedBy(a, key) && SortedBy(b, key) && KeyDetermines(a, key)
    requires multiset(a) == multiset(b)
    ensures a == b
  {
    PermutationLength(a, b);
    if a != [] {
      SameHead(a, b, key);
      SameTails(a, b);
      assert forall x :: x in a[1..] ==> x in a;
      SortedUnique(a[1..], b[1..], key);
      assert a == [a[0]] + a[1..] && b == [b[0]] + b[1..];
    }
  }

  /** So the sorted list does not depend on the order of the input. */
  lemma SortIgnoresOrder<T(!new)>(a: seq<T>, b: seq<T>, key: T -> string)
    requires multiset(a) == multiset(b) && KeyDetermines(a, key)
    ensures Sort(a, key) == Sort(b, key)
  {
    SortSorted(a, key);
    SortSorted(b, key);
    var sa := Sort(a, key);
    forall x | x in sa ensures x in a {
      assert x in multiset(sa);
    }
    SortedUnique(sa, Sort(b, key), key);
  }
}
