/** String replacement as JavaScript's `replaceAll` does it, splitting at slashes, and decimal numerals. */
module Text {

  /** Leftmost, non-overlapping replacement. */
  function ReplaceAll(s: string, from: string, to: string): (r: string)
    requires from != ""
  {
    if |s| < |from| then s
    else if s[..|from|] == from then to + ReplaceAll(s[|from|..], from, to)
    else [s[0]] + ReplaceAll(s[1..], from, to)
  }

  /** The parts between slashes; the empty text has one empty part. */
  function Parts(s: string): (r: seq<string>)
    ensures |r| > 0
  {
    if s == "" then [""]
    else
      var rest := Parts(s[1..]);
      if s[0] == '/' then [""] + rest else [[s[0]] + rest[0]] + rest[1..]
  }

  /** `s[i..j]` stands between two slashes or ends of `s`, and holds none. */
  ghost predicate IsPart(s: string, i: nat, j: nat) {
    && i <= j <= |s|
    && (i == 0 || s[i - 1] == '/')
    && (j == |s| || s[j] == '/')
    && '/' !in s[i..j]
  }

  ghost predicate PartFrom(s: string, first: nat, p: string) {
    exists i: nat, j: nat :: first <= i && IsPart(s, i, j) && p == s[i..j]
  }

  /** Splitting yields exactly the parts. */
  lemma {:induction false} PartsExact(s: string, p: string)
    ensures p in Parts(s) <==> PartFrom(s, 0, p)
    decreases s, 1
  {
    var k := HasFirstPart(s);
    FirstPart(s, k);
    LaterParts(s, p);
    assert Parts(s) == [Parts(s)[0]] + Parts(s)[1..];
    if i: nat, j: nat :| IsPart(s, i, j) && p == s[i..j] {
      if i == 0 { FirstPart(s, j); }
    }
  }

  lemma {:induction false} FirstPart(s: string, j: nat)
    requires IsPart(s, 0, j)
    ensures Parts(s)[0] == s[0..j]
  {
    if j > 0 {
      assert s[0] in s[0..j] && s[0..j] == [s[0]] + s[1..][0..j - 1];
      FirstPart(s[1..], j - 1);
    }
  }

  lemma {:induction false} HasFirstPart(s: string) returns (j: nat)
    ensures IsPart(s, 0, j)
  {
    if s == "" || s[0] == '/' {
      j := 0;
    } else {
      var k := HasFirstPart(s[1..]);
      j := k + 1;
      assert s[0..j] == [s[0]] + s[1..][0..k];
    }
  }

  lemma ShiftedPart(s: string, i: nat, j: nat)
    requires s != "" && 0 < i
    ensures IsPart(s, i, j) <==> j > 0 && IsPart(s[1..], i - 1, j - 1) && (i == 1 ==> s[0] == '/')
  {
    var t := s[1..];
    if i <= j <= |s| {
      forall k | i - 1 <= k <= j && k < |t| ensures t[k] == s[k + 1] {}
      assert s[i..j] == t[i - 1..j - 1];
    }
  }

  lemma ShiftedParts(s: string, p: string)
    requires s != ""
    ensures PartFrom(s, 1, p) <==> PartFrom(s[1..], if s[0] == '/' then 0 else 1, p)
  {
    var t, first := s[1..], if s[0] == '/' then 0 else 1;
    if i: nat, j: nat :| 1 <= i && IsPart(s, i, j) && p == s[i..j] {
      ShiftedPart(s, i, j);
      assert t[i - 1..j - 1] == p;
    }
    if i: nat, j: nat :| first <= i && IsPart(t, i, j) && p == t[i..j] {
      ShiftedPart(s, i + 1, j + 1);
      assert s[i + 1..j + 1] == p;
    }
  }

  lemma {:induction false} LaterParts(s: string, p: string)
    ensures p in Parts(s)[1..] <==> PartFrom(s, 1, p)
    decreases s, 0
  {
    if s == "" {
      assert Parts(s)[1..] == [];
    } else {
      ShiftedParts(s, p);
      if s[0] == '/' {
        PartsExact(s[1..], p);
        assert Parts(s)[1..] == Parts(s[1..]);
      } else {
        LaterParts(s[1..], p);
        assert Parts(s)[1..] == Parts(s[1..])[1..];
      }
    }
  }

  predicate Occurs(part: string, s: string) {
    part <= s || (s != "" && Occurs(part, s[1..]))
  }

  /** Nothing to replace, nothing changed. */
  lemma {:induction false} ReplaceAbsent(s: string, from: string, to: string)
    requires from != "" && !Occurs(from, s)
    ensures ReplaceAll(s, from, to) == s
  {
    if |s| >= |from| {
      assert s[..|from|] != from;
      ReplaceAbsent(s[1..], from, to);
    }
  }

  /** An occurrence cannot begin inside a text that avoids its first character. */
  lemma {:induction false} OccursPast(part: string, a: string, b: string)
    requires part != "" && part[0] !in a && Occurs(part, a + b)
    ensures Occurs(part, b)
  {
    if a == "" {
      assert a + b == b;
    } else {
      assert (a + b)[0] == a[0];
      assert (a + b)[1..] == a[1..] + b;
      OccursPast(part, a[1..], b);
    }
  }

  /** How often the text is replaced. */
  ghost function Replacements(s: string, from: string): (n: nat)
    requires from != ""
  {
    if |s| < |from| then 0
    else if s[..|from|] == from then 1 + Replacements(s[|from|..], from)
    else Replacements(s[1..], from)
  }

  lemma {:induction false} ReplacedLength(s: string, from: string, to: string)
    requires from != ""
    ensures |to| > |from| ==> |ReplaceAll(s, from, to)| >= |s| + Replacements(s, from)
    ensures |to| < |from| ==> |ReplaceAll(s, from, to)| + Replacements(s, from) <= |s|
  {
    if |s| >= |from| {
      ReplacedLength(if s[..|from|] == from then s[|from|..] else s[1..], from, to);
    }
  }

  lemma {:induction false} NoReplacements(s: string, from: string)
    requires from != ""
    ensures Replacements(s, from) == 0 <==> !Occurs(from, s)
  {
    if |s| < |from| {
      TooShort(from, s);
    } else if s[..|from|] != from {
      NoReplacements(s[1..], from);
    }
  }

  /** Replacing by a text of the same length changes the first place it replaces. */
  lemma {:induction false} SameLengthChanges(s: string, from: string, to: string)
    requires from != "" && from != to && |from| == |to| && Occurs(from, s)
    ensures ReplaceAll(s, from, to) != s
  {
    if |s| < |from| {
      TooShort(from, s);
    } else if s[..|from|] == from {
      assert ReplaceAll(s, from, to)[..|from|] == to;
    } else {
      SameLengthChanges(s[1..], from, to);
      assert ReplaceAll(s, from, to)[1..] == ReplaceAll(s[1..], from, to);
    }
  }

  /** Replacing a text by another leaves a string alone exactly when the text does not occur in it. */
  lemma ReplaceExact(s: string, from: string, to: string)
    requires from != "" && from != to
    ensures ReplaceAll(s, from, to) == s <==> !Occurs(from, s)
  {
    if !Occurs(from, s) {
      ReplaceAbsent(s, from, to);
    } else if |from| == |to| {
      SameLengthChanges(s, from, to);
    } else {
      ReplacedLength(s, from, to);
      NoReplacements(s, from);
    }
  }

  /** Replacing a text by itself does nothing. */
  lemma {:induction false} ReplaceBySelf(s: string, from: string)
    requires from != ""
    ensures ReplaceAll(s, from, from) == s
  {
    if |s| >= |from| {
      if s[..|from|] == from {
        ReplaceBySelf(s[|from|..], from);
        assert s == from + s[|from|..];
      } else {
        ReplaceBySelf(s[1..], from);
      }
    }
  }

  lemma {:induction false} TooShort(part: string, s: string)
    requires |s| < |part|
    ensures !Occurs(part, s)
  {
    if s != "" { TooShort(part, s[1..]); }
  }

  function Digit(n: nat): (c: char)
    requires n < 10
  {
    ('0' as int + n) as char
  }

  function Decimal(n: nat): (s: string) {
    if n < 10 then [Digit(n)] else Decimal(n / 10) + [Digit(n % 10)]
  }

  /** What decimal digits denote. */
  ghost function ValueOf(s: string): (n: int) {
    if s == "" then 0 else 10 * ValueOf(s[..|s| - 1]) + (s[|s| - 1] as int - '0' as int)
  }

  /** The digits of a number denote it, and begin with a zero only for zero. */
  lemma {:induction false} DecimalExact(n: nat)
    ensures ValueOf(Decimal(n)) == n
    ensures Decimal(n) != "" && (Decimal(n)[0] == '0' ==> n == 0)
  {
    if n >= 10 {
      DecimalExact(n / 10);
      assert Decimal(n)[..|Decimal(n)| - 1] == Decimal(n / 10);
    } else {
      assert Decimal(n)[..0] == "";
    }
  }

  lemma {:induction false} DecimalDigits(n: nat)
    ensures Decimal(n) != "" && forall c :: c in Decimal(n) ==> '0' <= c <= '9'
  {
    if n >= 10 { DecimalDigits(n / 10); }
  }

  lemma {:induction false} DecimalInjective(m: nat, n: nat)
    requires Decimal(m) == Decimal(n)
    ensures m == n
  {
    var a, b := Decimal(m), Decimal(n);
    assert a[|a| - 1] == b[|b| - 1];
    DecimalLength(m);
    DecimalLength(n);
    if m >= 10 && n >= 10 {
      assert a[..|a| - 1] == Decimal(m / 10) && b[..|b| - 1] == Decimal(n / 10);
      DecimalInjective(m / 10, n / 10);
    }
  }

  lemma DecimalLength(n: nat)
    ensures |Decimal(n)| > 1 <==> n >= 10
  {
    if n >= 10 { DecimalDigits(n / 10); }
  }
}
