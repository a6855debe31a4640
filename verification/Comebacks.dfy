/**
 When a replaced text can be back after `replaceAll`: put together by the
 replacement and what stood around it.
 */
module Comebacks {
  import opened Text

  /** Put after its first `k` characters, `w` is not met any earlier. */
  predicate FirstAfter(w: string, k: nat)
    requires k <= |w|
  {
    forall j :: 0 <= j < k ==> !(w <= w[j..k] + w)
  }

  /** Some end of `to` is a beginning of `w`. */
  predicate BeginsWithin(w: string, to: string) {
    exists k :: 0 <= k < |to| && to[k..] <= w
  }

  /** Some end of `w` is a beginning of `to`, and the rest of `w` can be put before a `w` without hiding it. */
  predicate EndsWithin(w: string, to: string) {
    exists k :: 0 <= k < |w| && w[k..] <= to && FirstAfter(w, k)
  }

  /** The four ways in which `w`, replaced by `to`, can come back. */
  predicate Returns(w: string, to: string) {
    Occurs(w, to) || Occurs(to, w) || BeginsWithin(w, to) || EndsWithin(w, to)
  }

  /** `w` is still there after it has been replaced. */
  predicate Survives(w: string, to: string, s: string)
    requires w != ""
  {
    Occurs(w, ReplaceAll(s, w, to))
  }

  // ---------------------------------------------------------------- occurrences by position

  lemma {:induction false} OccursAt(part: string, s: string, i: nat)
    requires i <= |s| && part <= s[i..]
    ensures Occurs(part, s)
  {
    if i > 0 {
      assert s[1..][i - 1..] == s[i..];
      OccursAt(part, s[1..], i - 1);
    }
  }

  /** `part` begins at `i` and nowhere before. */
  ghost predicate First(part: string, s: string, i: nat) {
    i <= |s| && part <= s[i..] && forall j :: 0 <= j < i ==> !(part <= s[j..])
  }

  lemma {:induction false} FirstExists(part: string, s: string) returns (i: nat)
    requires Occurs(part, s)
    ensures First(part, s, i)
  {
    if part <= s {
      i := 0;
      assert s[0..] == s;
    } else {
      var k := FirstExists(part, s[1..]);
      i := k + 1;
      assert s[1..][k..] == s[i..];
      forall j | 0 <= j < i ensures !(part <= s[j..]) {
        if j > 0 { assert s[1..][j - 1..] == s[j..]; } else { assert s[0..] == s; }
      }
    }
  }

  /** The text before the first occurrence is kept. */
  lemma {:induction false} KeptBefore(s: string, w: string, to: string, i: nat)
    requires w != "" && First(w, s, i)
    ensures ReplaceAll(s, w, to) == s[..i] + ReplaceAll(s[i..], w, to)
  {
    if i == 0 {
      assert s[0..] == s;
    } else {
      FirstBehind(w, s, i);
      KeptBefore(s[1..], w, to, i - 1);
      ReplaceNothingYet(s, w, to);
      assert s[1..][i - 1..] == s[i..];
      Regroup(s, i, ReplaceAll(s[i..], w, to));
    }
  }

  lemma ReplaceFirst(s: string, w: string, to: string, i: nat)
    requires w != "" && First(w, s, i)
    ensures i + |w| <= |s| && ReplaceAll(s, w, to) == s[..i] + (to + ReplaceAll(s[i + |w|..], w, to))
  {
    KeptBefore(s, w, to, i);
    assert s[i..][|w|..] == s[i + |w|..];
  }

  lemma ReplaceNothingYet(s: string, w: string, to: string)
    requires w != "" && s != "" && !(w <= s)
    ensures ReplaceAll(s, w, to) == [s[0]] + ReplaceAll(s[1..], w, to)
  {
    assert |s| >= |w| ==> s[..|w|] != w;
  }

  lemma Regroup(s: string, i: nat, tail: string)
    requires 0 < i <= |s|
    ensures [s[0]] + (s[1..][..i - 1] + tail) == s[..i] + tail
  {
  }

  lemma FirstBehind(part: string, s: string, i: nat)
    requires i > 0 && First(part, s, i)
    ensures First(part, s[1..], i - 1) && !(part <= s)
  {
    assert s[0..] == s;
    assert s[1..][i - 1..] == s[i..];
    forall j | 0 <= j < i - 1 ensures !(part <= s[1..][j..]) {
      assert s[1..][j..] == s[j + 1..];
    }
  }

  /** `w` is met first behind `a`, whatever follows, if no end of `a` hides it. */
  lemma FirstWhere(w: string, a: string, b: string)
    requires forall j :: 0 <= j < |a| ==> !(w <= a[j..] + w)
    ensures First(w, a + w + b, |a|)
  {
    var s := a + w + b;
    assert s[|a|..] == w + b;
    forall j | 0 <= j < |a| ensures !(w <= s[j..]) {
      assert s[j..] == (a[j..] + w) + b;
    }
  }

  // ---------------------------------------------------------------- it comes back

  lemma BackFromInside(w: string, to: string)
    requires w != "" && Occurs(w, to)
    ensures Survives(w, to, w)
  {
    assert w[..|w|] == w && w[|w|..] == "" && to + "" == to;
  }

  lemma BackAcrossEnd(w: string, to: string, k: nat)
    requires w != "" && k < |to| && to[k..] <= w
    ensures Survives(w, to, w + w[|to| - k..])
  {
    var y := w[|to| - k..];
    assert (w + y)[..|w|] == w && (w + y)[|w|..] == y;
    assert (to + y)[k..] == to[k..] + y == w;
    OccursAt(w, to + y, k);
  }

  lemma BackAcrossStart(w: string, to: string, k: nat)
    requires w != "" && k < |w| && w[k..] <= to && FirstAfter(w, k)
    ensures Survives(w, to, w[..k] + w)
  {
    var x := w[..k];
    assert forall j :: 0 <= j < k ==> x[j..] == w[j..k];
    FirstWhere(w, x, "");
    assert x + w + "" == x + w && (x + w)[..k] == x;
    ReplaceFirst(x + w, w, to, k);
    assert w == x + w[k..] <= x + to;
  }

  /** A text that is met early behind its own beginning repeats itself there. */
  lemma Periodic(w: string, to: string, j: nat, k: nat)
    requires j < k <= |w| && to <= w[k..] && w <= w[j..k] + w
    ensures to <= w[j..]
  {
    forall i | 0 <= i < |to| ensures to[i] == w[j..][i] {
      assert to[i] == w[k..][i] == w[k + i];
      assert (w[j..k] + w)[k + i] == w[j + i];
    }
  }

  lemma FirstKeepsAfter(w: string, to: string, k: nat)
    requires First(to, w, k)
    ensures FirstAfter(w, k)
  {
    forall j | 0 <= j < k ensures !(w <= w[j..k] + w) {
      if w <= w[j..k] + w { Periodic(w, to, j, k); }
    }
  }

  lemma BackFromParts(w: string, to: string, k: nat)
    requires w != "" && to != "" && First(to, w, k)
    ensures Survives(w, to, w[..k] + w + w[k + |to|..])
  {
    var a, b := w[..k], w[k + |to|..];
    var s := a + w + b;
    FirstKeepsAfter(w, to, k);
    assert forall j :: 0 <= j < k ==> a[j..] == w[j..k];
    FirstWhere(w, a, b);
    ReplaceFirst(s, w, to, k);
    assert s[..k] == a && s[k + |w|..] == b;
    assert w == a + (to + b);
  }

  /** A text from which `w` comes back. */
  ghost function Comeback(w: string, to: string): (s: string)
    requires w != "" && to != "" && Returns(w, to)
    ensures Survives(w, to, s)
  {
    if Occurs(w, to) then
      BackFromInside(w, to);
      w
    else if BeginsWithin(w, to) then
      var k :| 0 <= k < |to| && to[k..] <= w;
      BackAcrossEnd(w, to, k);
      w + w[|to| - k..]
    else if EndsWithin(w, to) then
      var k :| 0 <= k < |w| && w[k..] <= to && FirstAfter(w, k);
      BackAcrossStart(w, to, k);
      w[..k] + w
    else
      FirstOccurrence(to, w);
      var k: nat :| First(to, w, k);
      BackFromParts(w, to, k);
      w[..k] + w + w[k + |to|..]
  }

  lemma FirstOccurrence(part: string, s: string)
    requires Occurs(part, s)
    ensures exists i: nat :: First(part, s, i)
  {
    var i := FirstExists(part, s);
  }

  // ---------------------------------------------------------------- it stays away

  /** An occurrence in `a + b` is one in `a`, one in `b`, or begins with an end of `a`. */
  lemma {:induction false} OccursAcross(part: string, a: string, b: string)
    requires Occurs(part, a + b)
    ensures Occurs(part, a) || Occurs(part, b) || BeginsWithin(part, a)
  {
    if a == "" {
      assert a + b == b;
    } else if part <= a + b {
      if |part| <= |a| {
        assert part <= a;
      } else {
        assert a[0..] == a && a <= part;
      }
    } else {
      assert (a + b)[1..] == a[1..] + b;
      OccursAcross(part, a[1..], b);
      if BeginsWithin(part, a[1..]) {
        var k :| 0 <= k < |a[1..]| && a[1..][k..] <= part;
        assert a[k + 1..] == a[1..][k..];
      }
    }
  }

  /** A beginning that was not there before ends in the replacement. */
  lemma NewBeginning(s: string, w: string, to: string, k: nat, rest: string)
    requires w != "" && k > 0 && First(w, s, k) && w <= s[..k] + (to + rest)
    ensures Returns(w, to)
  {
    var r := s[..k] + (to + rest);
    assert s[0..] == s && forall i :: 0 <= i < k ==> r[i] == s[i];
    assert |w| > k;
    assert w[..k] == s[..k] && w[k..] <= to + rest;
    if |w| - k >= |to| {
      OccursAt(to, w, k);
    } else {
      FirstIsAfter(s, w, k);
    }
  }

  lemma FirstIsAfter(s: string, w: string, k: nat)
    requires First(w, s, k) && k < |w| && w[..k] == s[..k]
    ensures FirstAfter(w, k)
  {
    forall j | 0 <= j < k ensures !(w <= w[j..k] + w) {
      assert s[j..] == s[j..k] + s[k..] && w[j..k] == s[j..k];
      assert w[j..k] + w <= s[j..];
    }
  }

  /** After replacing, the old text is gone, unless it is one of those that can come back. */
  lemma {:induction false} ReplacedGone(s: string, w: string, to: string)
    requires w != "" && !Returns(w, to)
    ensures !Survives(w, to, s)
  {
    if |s| < |w| {
      TooShort(w, s);
    } else if s[..|w|] == w {
      ReplacedGone(s[|w|..], w, to);
      if Survives(w, to, s) { OccursAcross(w, to, ReplaceAll(s[|w|..], w, to)); }
    } else {
      ReplacedGone(s[1..], w, to);
      assert ReplaceAll(s, w, to)[1..] == ReplaceAll(s[1..], w, to);
      NotAtStart(s, w, to);
    }
  }

  lemma NotAtStart(s: string, w: string, to: string)
    requires w != "" && !Returns(w, to) && !(w <= s)
    ensures !(w <= ReplaceAll(s, w, to))
  {
    if Occurs(w, s) {
      var k := FirstExists(w, s);
      assert s[0..] == s;
      ReplaceFirst(s, w, to, k);
      if w <= ReplaceAll(s, w, to) { NewBeginning(s, w, to, k, ReplaceAll(s[k + |w|..], w, to)); }
    } else {
      ReplaceAbsent(s, w, to);
    }
  }

  /** Some text still holds `w` after replacing it exactly when `w` can come back. */
  lemma ReturnsExactly(w: string, to: string)
    requires w != "" && to != ""
    ensures (exists s :: Survives(w, to, s)) <==> Returns(w, to)
  {
    if Returns(w, to) {
      var s := Comeback(w, to);
      assert Survives(w, to, s);
    } else {
      forall s ensures !Survives(w, to, s) { ReplacedGone(s, w, to); }
    }
  }

  /** Text that shares no character with `w` can stand in front. */
  lemma {:induction false} ReplaceBehind(before: string, s: string, w: string, to: string)
    requires w != "" && forall c :: c in before ==> c !in w
    ensures ReplaceAll(before + s, w, to) == before + ReplaceAll(s, w, to)
  {
    if before == "" {
      assert before + s == s;
    } else {
      var rest := before[1..] + s;
      assert before + s == [before[0]] + rest && (before + s)[1..] == rest;
      assert before[0] in before && w[0] in w;
      ReplaceBehind(before[1..], s, w, to);
      if |before + s| < |w| {
        assert ReplaceAll(rest, w, to) == rest;
      } else {
        assert (before + s)[..|w|][0] != w[0];
      }
    }
  }

  lemma {:induction false} OccursBehind(part: string, a: string, b: string)
    requires Occurs(part, b)
    ensures Occurs(part, a + b)
  {
    if a == "" {
      assert a + b == b;
    } else {
      assert (a + b)[1..] == a[1..] + b;
      OccursBehind(part, a[1..], b);
    }
  }

  /** A replacement shows. */
  lemma ReplacementShows(s: string, w: string, to: string)
    requires w != "" && to != "" && Survives(w, to, s)
    ensures to[0] in ReplaceAll(s, w, to)
  {
    if !Occurs(w, s) {
      ReplaceAbsent(s, w, to);
    } else {
      var i := FirstExists(w, s);
      ReplaceFirst(s, w, to, i);
      assert ReplaceAll(s, w, to)[i] == to[0];
    }
  }

  lemma PartShows(part: string, s: string)
    requires part != "" && Occurs(part, s)
    ensures part[0] in s
  {
    var k := FirstExists(part, s);
    assert s[k] == s[k..][0] == part[0];
  }

  lemma NeverShows(part: string, s: string)
    requires part != "" && part[0] !in s
    ensures !Occurs(part, s)
  {
    if Occurs(part, s) { PartShows(part, s); }
  }

  lemma SecondShows(part: string, s: string)
    requires |part| > 1 && Occurs(part, s)
    ensures s != "" && part[1] in s[1..]
  {
    var k := FirstExists(part, s);
    assert s[1..][k] == s[k + 1] == s[k..][1] == part[1];
  }

  lemma EndShows(w: string, to: string)
    requires BeginsWithin(w, to)
    ensures to[|to| - 1] in w
  {
    var k :| 0 <= k < |to| && to[k..] <= w;
    assert w[|to| - k - 1] == to[k..][|to| - k - 1] == to[|to| - 1];
  }

  lemma BeginningShows(w: string, to: string)
    requires EndsWithin(w, to)
    ensures to != "" && to[0] in w
  {
    var k :| 0 <= k < |w| && w[k..] <= to && FirstAfter(w, k);
    assert w[k] == w[k..][0] == to[0];
  }

  /** A doubled character hides itself, and so does not come back from a text that merely begins with it. */
  lemma DoubledStaysAway(c: char, to: string)
    requires |to| > 2 && c !in to[1..]
    ensures !Returns([c, c], to)
  {
    var w := [c, c];
    assert to[1] in to[1..] && to[|to| - 1] in to[1..];
    assert w[0..] == w && w[0..1] + w == [c, c, c];
    assert !FirstAfter(w, 1);
    TooShort(to, w);
    if Occurs(w, to) {
      SecondShows(w, to);
    } else if BeginsWithin(w, to) {
      EndShows(w, to);
    }
  }

  /** A text that holds neither the replacement's first character nor its last returns only as part of it. */
  lemma ReturnsInside(w: string, to: string)
    requires w != "" && to != "" && to[0] !in w && to[|to| - 1] !in w
    ensures Returns(w, to) <==> Occurs(w, to)
  {
    if Occurs(to, w) {
      PartShows(to, w);
    } else if BeginsWithin(w, to) {
      EndShows(w, to);
    } else if EndsWithin(w, to) {
      BeginningShows(w, to);
    }
  }
}
