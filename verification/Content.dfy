/**
 The allowlist check of a bundle's members against the files its proof kind
 declares. Decoding, parsing and the glob patterns are library code and enter
 as parameters.
 */
module Content {
  import opened Results
  import opened Sequences
  import opened Bytes
  import opened JsonValues
  import opened Schemas
  import opened SchemaBounds

  datatype Declared = Declared(matches: string -> bool, schema: string)

  datatype Member = Member(name: string, data: seq<byte>)

  datatype TextSchema = TextSchema(line: string -> bool, maxBytes: nat)

  datatype Library = Library(
    decode: seq<byte> -> Option<string>,
    parse: string -> Option<Json>,
    texts: map<string, TextSchema>,
    schemas: map<string, Schema>)

  datatype Finding =
    | NotDeclared(name: string)
    | AmbiguouslyDeclared(name: string)
    | NotUtf8(name: string)
    | TooLarge(name: string)
    | BadLine(name: string, number: nat)
    | UnknownSchema(name: string)
    | InvalidJson(name: string)
    | Refused(name: string, problem: Problem)

  ghost predicate LibraryGrounded(lib: Library) {
    forall k :: k in lib.schemas ==> Grounded(lib.schemas[k])
  }

  // ---------------------------------------------------------------- lines

  /** `split(/\r?\n/)`. */
  function Lines(s: string): (r: seq<string>)
    ensures |r| > 0
  {
    if s == "" then [""]
    else if s[0] == '\n' then [""] + Lines(s[1..])
    else if |s| > 1 && s[0] == '\r' && s[1] == '\n' then [""] + Lines(s[2..])
    else
      var rest := Lines(s[1..]);
      [[s[0]] + rest[0]] + rest[1..]
  }

  /** Lines hold no line feed. */
  lemma {:induction false} LinesHoldNoFeed(s: string)
    ensures forall i :: 0 <= i < |Lines(s)| ==> '\n' !in Lines(s)[i]
  {
    if s == "" {
    } else if s[0] == '\n' {
      LinesHoldNoFeed(s[1..]);
    } else if |s| > 1 && s[0] == '\r' && s[1] == '\n' {
      LinesHoldNoFeed(s[2..]);
    } else {
      LinesHoldNoFeed(s[1..]);
    }
  }

  /** A line ends at its feed, and a carriage return just before the feed is not part of it. */
  lemma {:induction false} LineEnds(a: string, b: string)
    requires '\n' !in a && (a == "" || a[|a| - 1] != '\r')
    ensures Lines(a + "\n" + b) == [a] + Lines(b)
    ensures Lines(a + "\r\n" + b) == [a] + Lines(b)
  {
    var feed, crlf := a + "\n" + b, a + "\r\n" + b;
    if a == "" {
      assert feed[0] == '\n' && feed[1..] == b;
      assert crlf[0] == '\r' && crlf[1] == '\n' && crlf[2..] == b;
    } else {
      assert a[0] in a && (|a| > 1 ==> a[1] in a);
      assert feed[0] == a[0] && feed[1..] == a[1..] + "\n" + b;
      assert crlf[0] == a[0] && crlf[1..] == a[1..] + "\r\n" + b;
      LineEnds(a[1..], b);
      assert [a[0]] + a[1..] == a;
    }
  }

  /** What holds no feed is one line. */
  lemma {:induction false} LastLine(a: string)
    requires '\n' !in a
    ensures Lines(a) == [a]
  {
    if a != "" {
      assert a[0] in a && (|a| > 1 ==> a[1] in a);
      LastLine(a[1..]);
      assert [a[0]] + a[1..] == a;
    }
  }

  // ---------------------------------------------------------------- the rule, declaratively

  ghost predicate OnlyMatch(declared: seq<Declared>, name: string, k: nat) {
    && k < |declared| && declared[k].matches(name)
    && forall j :: 0 <= j < |declared| && declared[j].matches(name) ==> j == k
  }

  ghost predicate TextAccepted(t: TextSchema, text: string) {
    |text| <= t.maxBytes && forall i :: 0 <= i < |Lines(text)| ==> t.line(Lines(text)[i])
  }

  ghost predicate JsonAccepted(lib: Library, schema: string, text: string) {
    && schema in lib.schemas
    && lib.parse(text).Some?
    && Conforms(lib.parse(text).value, lib.schemas[schema])
  }

  ghost predicate SchemaAccepts(lib: Library, schema: string, data: seq<byte>) {
    var text := lib.decode(data);
    && text.Some?
    && if schema in lib.texts then TextAccepted(lib.texts[schema], text.value)
       else JsonAccepted(lib, schema, text.value)
  }

  /** Exactly one declared file matches the member, and its schema accepts the content. */
  ghost predicate Accepted(lib: Library, declared: seq<Declared>, m: Member) {
    exists k: nat :: OnlyMatch(declared, m.name, k) && SchemaAccepts(lib, declared[k].schema, m.data)
  }

  // ---------------------------------------------------------------- the check

  /** `rules.filter(...)`, as indices. */
  method Matching(declared: seq<Declared>, name: string) returns (r: seq<nat>)
    ensures |r| == 1 <==> exists k: nat :: OnlyMatch(declared, name, k)
    ensures |r| == 1 ==> OnlyMatch(declared, name, r[0])
    ensures r == [] <==> forall k :: 0 <= k < |declared| ==> !declared[k].matches(name)
  {
    r := [];
    for i := 0 to |declared|
      invariant forall j :: 0 <= j < |r| ==> r[j] < i && declared[r[j]].matches(name)
      invariant forall j, k :: 0 <= j < k < |r| ==> r[j] < r[k]
      invariant forall k :: 0 <= k < i && declared[k].matches(name) ==> k in r
    {
      if declared[i].matches(name) { r := r + [i]; }
    }
    if |r| == 1 {
      assert OnlyMatch(declared, name, r[0]);
    } else if |r| > 1 {
      assert r[0] < r[1];
    }
  }

  ghost predicate FirstBadLine(t: TextSchema, lines: seq<string>, n: nat) {
    1 <= n <= |lines| && !t.line(lines[n - 1]) && forall k :: 0 <= k < n - 1 ==> t.line(lines[k])
  }

  method CheckText(name: string, t: TextSchema, text: string) returns (found: seq<Finding>)
    ensures found == [] <==> TextAccepted(t, text)
    ensures TextReport(t, name, text, found)
  {
    found := [];
    if |text| > t.maxBytes { found := [TooLarge(name)]; }
    var lines := Lines(text);
    for i := 0 to |lines|
      invariant forall k :: 0 <= k < i ==> t.line(lines[k])
      invariant found == if |text| > t.maxBytes then [TooLarge(name)] else []
    {
      if !t.line(lines[i]) {
        assert FirstBadLine(t, lines, i + 1);
        found := found + [BadLine(name, i + 1)];
        break;
      }
    }
  }

  /** The first twenty of the validator's problems, under the member's name. */
  ghost predicate PassedOn(name: string, problems: seq<Problem>, found: seq<Finding>) {
    && |found| == (if |problems| < 20 then |problems| else 20)
    && forall i :: 0 <= i < |found| ==> found[i] == Refused(name, problems[i])
  }

  method PassOn(name: string, problems: seq<Problem>) returns (found: seq<Finding>)
    ensures PassedOn(name, problems, found)
  {
    found := [];
    for i := 0 to if |problems| < 20 then |problems| else 20
      invariant |found| == i && forall k :: 0 <= k < i ==> found[k] == Refused(name, problems[k])
    {
      found := found + [Refused(name, problems[i])];
    }
  }

  method CheckJson(lib: Library, name: string, schema: string, text: string) returns (found: seq<Finding>)
    requires LibraryGrounded(lib)
    ensures found == [] <==> JsonAccepted(lib, schema, text)
    ensures |found| <= 20
    ensures forall f :: f in found ==> f.name == name
    ensures JsonReport(lib, name, schema, text, found)
  {
    if schema !in lib.schemas { return [UnknownSchema(name)]; }
    var document := lib.parse(text);
    if document.None? { return [InvalidJson(name)]; }
    var problems := Problems(document.value, lib.schemas[schema], "");
    found := PassOn(name, problems);
    ProblemsExact(document.value, lib.schemas[schema], "");
  }

  /** What is reported about a member: its declaration, its encoding, or what its schema says of the text. */
  ghost predicate Report(lib: Library, declared: seq<Declared>, m: Member, found: seq<Finding>)
    requires LibraryGrounded(lib)
  {
    && ((forall k :: 0 <= k < |declared| ==> !declared[k].matches(m.name)) ==> found == [NotDeclared(m.name)])
    && ((exists j, k :: 0 <= j < k < |declared| && declared[j].matches(m.name) && declared[k].matches(m.name))
        ==> found == [AmbiguouslyDeclared(m.name)])
    && forall k: nat :: OnlyMatch(declared, m.name, k) ==>
         var schema, text := declared[k].schema, lib.decode(m.data);
         if text.None? then found == [NotUtf8(m.name)]
         else if schema in lib.texts then TextReport(lib.texts[schema], m.name, text.value, found)
         else JsonReport(lib, m.name, schema, text.value, found)
  }

  ghost predicate TextReport(t: TextSchema, name: string, text: string, found: seq<Finding>) {
    && |found| <= 2
    && (TooLarge(name) in found <==> |text| > t.maxBytes)
    && (forall n: nat :: BadLine(name, n) in found <==> FirstBadLine(t, Lines(text), n))
    && forall f :: f in found ==> f.name == name && (f.TooLarge? || f.BadLine?)
  }

  ghost predicate JsonReport(lib: Library, name: string, schema: string, text: string, found: seq<Finding>)
    requires LibraryGrounded(lib)
  {
    if schema !in lib.schemas then found == [UnknownSchema(name)]
    else if lib.parse(text).None? then found == [InvalidJson(name)]
    else PassedOn(name, Problems(lib.parse(text).value, lib.schemas[schema], ""), found)
  }

  method CheckMember(lib: Library, declared: seq<Declared>, m: Member) returns (found: seq<Finding>)
    requires LibraryGrounded(lib)
    ensures found == [] <==> Accepted(lib, declared, m)
    ensures |found| <= 20
    ensures Report(lib, declared, m, found)
    ensures forall f :: f in found ==> f.name == m.name
  {
    var matching := Matching(declared, m.name);
    if |matching| != 1 {
      assert !Accepted(lib, declared, m);
      return [if |matching| == 0 then NotDeclared(m.name) else AmbiguouslyDeclared(m.name)];
    }
    var rule := declared[matching[0]];
    assert Accepted(lib, declared, m) <==> SchemaAccepts(lib, rule.schema, m.data) by {
      OneRule(lib, declared, m, matching[0]);
    }
    var decoded := lib.decode(m.data);
    if decoded.None? { return [NotUtf8(m.name)]; }
    if rule.schema in lib.texts {
      found := CheckText(m.name, lib.texts[rule.schema], decoded.value);
    } else {
      found := CheckJson(lib, m.name, rule.schema, decoded.value);
    }
  }

  lemma OneRule(lib: Library, declared: seq<Declared>, m: Member, k: nat)
    requires OnlyMatch(declared, m.name, k)
    ensures Accepted(lib, declared, m) <==> SchemaAccepts(lib, declared[k].schema, m.data)
  {
  }

  ghost function NamesOf(found: seq<Finding>): (names: set<string>) {
    set f | f in found :: f.name
  }

  /** The names of the members a check refuses. */
  ghost function RefusedNames(ok: Member -> bool, members: seq<Member>): (names: set<string>) {
    if members == [] then {}
    else
      var last := members[|members| - 1];
      RefusedNames(ok, members[..|members| - 1]) + if ok(last) then {} else {last.name}
  }

  lemma NamesOfMore(found: seq<Finding>, more: seq<Finding>, name: string)
    requires forall f :: f in more ==> f.name == name
    ensures NamesOf(found + more) == NamesOf(found) + if more == [] then {} else {name}
  {
    if more != [] {
      assert more[0] in found + more;
    } else {
      assert found + more == found;
    }
    assert forall f :: f in found ==> f in found + more;
  }

  lemma {:induction false} NoneRefused(ok: Member -> bool, members: seq<Member>)
    ensures RefusedNames(ok, members) == {} <==> forall i :: 0 <= i < |members| ==> ok(members[i])
  {
    if members != [] { NoneRefused(ok, members[..|members| - 1]); }
  }

  lemma NoNames(found: seq<Finding>)
    ensures NamesOf(found) == {} <==> found == []
  {
    if found != [] { assert found[0].name in NamesOf(found); }
  }

  type Reporting = (Member, seq<Finding>) -> bool

  ghost function ReportOf(lib: Library, declared: seq<Declared>): (report: Reporting)
    requires LibraryGrounded(lib)
  {
    (m: Member, found: seq<Finding>) => Report(lib, declared, m, found)
  }

  /** One report for each member, in order. */
  ghost predicate Reported(report: Reporting, members: seq<Member>, reports: seq<seq<Finding>>) {
    |reports| == |members| && forall i :: 0 <= i < |members| ==> report(members[i], reports[i])
  }

  /** The findings so far are the reports so far, and name the members refused so far. */
  ghost predicate Gathered(
    report: Reporting, ok: Member -> bool, members: seq<Member>, found: seq<Finding>, reports: seq<seq<Finding>>) {
    && Reported(report, members, reports) && found == Flatten(reports)
    && NamesOf(found) == RefusedNames(ok, members)
  }

  lemma GatheredNext(
    report: Reporting, ok: Member -> bool, members: seq<Member>, i: nat, found: seq<Finding>,
    reports: seq<seq<Finding>>, more: seq<Finding>)
    requires i < |members| && Gathered(report, ok, members[..i], found, reports)
    requires report(members[i], more) && (more == [] <==> ok(members[i]))
    requires forall f :: f in more ==> f.name == members[i].name
    ensures Gathered(report, ok, members[..i + 1], found + more, reports + [more])
  {
    NamesOfMore(found, more, members[i].name);
    FlattenAppend(reports, more);
    assert members[..i + 1][..i] == members[..i];
  }

  /**
   `contentProblems`: the reports on the members one after the other, and
   nothing at all exactly when every member is accepted.
   */
  method ContentProblems(lib: Library, declared: seq<Declared>, members: seq<Member>)
    returns (found: seq<Finding>, ghost reports: seq<seq<Finding>>)
    requires LibraryGrounded(lib)
    ensures found == Flatten(reports) && Reported(ReportOf(lib, declared), members, reports)
    ensures NamesOf(found) == RefusedNames(m => Accepted(lib, declared, m), members)
    ensures found == [] <==> forall i :: 0 <= i < |members| ==> Accepted(lib, declared, members[i])
    ensures |found| <= 20 * |members|
  {
    found, reports := [], [];
    ghost var ok := (m: Member) => Accepted(lib, declared, m);
    ghost var report := ReportOf(lib, declared);
    for i := 0 to |members|
      invariant Gathered(report, ok, members[..i], found, reports)
      invariant |found| <= 20 * i
    {
      var more := CheckMember(lib, declared, members[i]);
      GatheredNext(report, ok, members, i, found, reports, more);
      found, reports := found + more, reports + [more];
    }
    assert members[..|members|] == members;
    NoneRefused(ok, members);
    NoNames(found);
  }

  // ---------------------------------------------------------------- what acceptance buys

  /** An accepted JSON member is as small as its one declared schema says. */
  lemma AcceptedIsBounded(lib: Library, declared: seq<Declared>, m: Member, k: nat)
    requires Accepted(lib, declared, m) && OnlyMatch(declared, m.name, k)
    requires declared[k].schema !in lib.texts
    requires forall text: string :: lib.parse(text).Some? ==> WellFormed(lib.parse(text).value)
    ensures declared[k].schema in lib.schemas
    ensures var document := lib.parse(lib.decode(m.data).value).value;
      && Nesting(document) <= NestingBound(lib.schemas[declared[k].schema])
      && Nodes(document) <= NodeBound(lib.schemas[declared[k].schema])
  {
    OneRule(lib, declared, m, k);
    var text := lib.decode(m.data).value;
    var document := lib.parse(text).value;
    NestingBounded(document, lib.schemas[declared[k].schema]);
    NodesBounded(document, lib.schemas[declared[k].schema]);
  }
}
