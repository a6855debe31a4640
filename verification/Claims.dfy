/**
 The claim gate: which statuses may be promoted, and the second, independently
 written check of the same rules in the documentation truth check.

 The gate collects failure messages in loops. Each loop is proved to stay silent
 exactly on the declarative rule, and the two implementations are then compared
 rule against rule.
 */
module Claims {
  import opened Results
  import opened Sequences
  import opened Sorting
  import opened Manifest

  /** A flag of a JSON document that should be a boolean where it is given. */
  datatype Flag = NotGiven | NotBoolean | Given(value: bool)

  datatype Claim = Claim(
    id: string,
    surface: string,
    status: string,
    evidenceIds: Option<seq<string>>,
    gaRequired: Flag)

  datatype Registered = Registered(id: string, gaRequired: bool)

  datatype ReleaseStatus = ReleaseStatus(
    schemaVersion: int,
    evidenceRetired: bool,
    commit: Option<string>,
    claims: seq<Claim>)

  datatype Message =
    | MissingEvidence(claim: string, id: string)
    | NotEvidenceFor(claim: string, id: string)
    | EvidenceStatus(id: string, status: string)
    | EvidenceCommit(id: string, commit: string)
    | ClaimStatus(claim: string, status: string)
    | NoEvidence(claim: string)
    | NothingBound(claim: string)
    | FlagDiffers(claim: string)
    | SchemaVersion
    | EvidenceRetired
    | CandidateDiffers
    | ClaimsDiffer

  /** The manifest entry an id resolves to in a `Map` built in list order. */
  function Lookup(entries: seq<Entry>, id: string): (r: Option<Entry>)
    ensures r.Some? ==> r.value in entries && r.value.id == id
    ensures r.None? <==> forall e :: e in entries ==> e.id != id
  {
    if entries == [] then None
    else
      var last := |entries| - 1;
      assert entries == entries[..last] + [entries[last]];
      if entries[last].id == id then Some(entries[last]) else Lookup(entries[..last], id)
  }

  function FindClaim(claims: seq<Claim>, id: string): (r: Option<Claim>)
    ensures r.Some? ==> r.value in claims && r.value.id == id
    ensures r.None? <==> forall c :: c in claims ==> c.id != id
  {
    if claims == [] then None
    else
      assert claims == [claims[0]] + claims[1..];
      if claims[0].id == id then Some(claims[0]) else FindClaim(claims[1..], id)
  }

  function Cited(c: Claim): (ids: seq<string>) { if c.evidenceIds.Some? then c.evidenceIds.value else [] }

  // ---------------------------------------------------------------- the declarative rule

  /** The cited entry exists and names the claim. */
  predicate Names(entries: seq<Entry>, id: string, claim: string) {
    var e := Lookup(entries, id);
    e.Some? && claim in e.value.claimIds
  }

  /** ... and it passed, on the candidate. */
  predicate Proves(entries: seq<Entry>, commit: Option<string>, id: string, claim: string) {
    && Names(entries, id, claim)
    && var e := Lookup(entries, id).value;
       e.status == "passed" && commit == Some(e.commit)
  }

  /** A claim that must pass, or says it passed, is backed by evidence that all proves it. */
  predicate Backed(entries: seq<Entry>, commit: Option<string>, c: Claim) {
    && c.status == "passed"
    && Cited(c) != []
    && forall id :: id in Cited(c) ==> Proves(entries, commit, id, c.id)
  }

  predicate ClaimHolds(entries: seq<Entry>, commit: Option<string>, c: Claim, mustPass: bool) {
    if mustPass || c.status == "passed" then Backed(entries, commit, c)
    else forall id :: id in Cited(c) ==> Names(entries, id, c.id)
  }

  predicate RegisteredHolds(
    s: ReleaseStatus, entries: seq<Entry>, commit: Option<string>, r: Registered, complete: bool) {
    match FindClaim(s.claims, r.id)
    case None => true
    case Some(c) =>
      c.gaRequired == Given(r.gaRequired) && ClaimHolds(entries, commit, c, r.gaRequired && complete)
  }

  function ClaimId(c: Claim): string { c.id }
  function RegisteredId(r: Registered): string { r.id }

  function Ids<T>(xs: seq<T>, id: T -> string): (r: seq<string>)
    ensures |r| == |xs| && forall i :: 0 <= i < |xs| ==> r[i] == id(xs[i])
  {
    seq(|xs|, i requires 0 <= i < |xs| => id(xs[i]))
  }

  ghost predicate Gate(
    s: ReleaseStatus, entries: seq<Entry>, commit: Option<string>, registry: seq<Registered>, complete: bool) {
    && HeaderHolds(s, commit, registry)
    && forall r :: r in registry ==> RegisteredHolds(s, entries, commit, r, complete)
  }

  // ---------------------------------------------------------------- what is reported

  function Reported(fault: Option<Message>): (r: seq<Message>) { if fault.Some? then [fault.value] else [] }

  /** The faults found at the ids, in order. */
  function Faults(fault: string -> Option<Message>, ids: seq<string>): (r: seq<Message>) {
    if ids == [] then []
    else Faults(fault, ids[..|ids| - 1]) + Reported(fault(ids[|ids| - 1]))
  }

  lemma {:induction false} NoFaults(fault: string -> Option<Message>, ids: seq<string>)
    ensures Faults(fault, ids) == [] <==> forall id :: id in ids ==> fault(id).None?
  {
    if ids != [] {
      NoFaults(fault, ids[..|ids| - 1]);
      assert ids == ids[..|ids| - 1] + [ids[|ids| - 1]];
    }
  }

  /** Some id has no fault. */
  predicate AnyFine(fault: string -> Option<Message>, ids: seq<string>) {
    ids != [] && (AnyFine(fault, ids[..|ids| - 1]) || fault(ids[|ids| - 1]).None?)
  }

  lemma FaultsNext(fault: string -> Option<Message>, ids: seq<string>, i: nat)
    requires i < |ids|
    ensures Faults(fault, ids[..i + 1]) == Faults(fault, ids[..i]) + Reported(fault(ids[i]))
    ensures AnyFine(fault, ids[..i + 1]) <==> AnyFine(fault, ids[..i]) || fault(ids[i]).None?
  {
    assert ids[..i + 1][..i] == ids[..i];
  }

  function CitationFault(entries: seq<Entry>, claim: string): (f: string -> Option<Message>) {
    (id: string) =>
      var e := Lookup(entries, id);
      if e.None? then Some(MissingEvidence(claim, id))
      else if claim !in e.value.claimIds then Some(NotEvidenceFor(claim, id))
      else None
  }

  function ProofFault(entries: seq<Entry>, commit: Option<string>, claim: string): (f: string -> Option<Message>) {
    (id: string) =>
      var e := Lookup(entries, id);
      if e.None? then Some(MissingEvidence(claim, id))
      else if claim !in e.value.claimIds then Some(NotEvidenceFor(claim, id))
      else if e.value.status != "passed" then Some(EvidenceStatus(id, e.value.status))
      else if commit != Some(e.value.commit) then Some(EvidenceCommit(id, e.value.commit))
      else None
  }

  function BackingFailures(entries: seq<Entry>, commit: Option<string>, c: Claim): (r: seq<Message>) {
    if c.status != "passed" then [ClaimStatus(c.id, c.status)]
    else if Cited(c) == [] then [NoEvidence(c.id)]
    else
      var fault := ProofFault(entries, commit, c.id);
      Faults(fault, Cited(c)) + if AnyFine(fault, Cited(c)) then [] else [NothingBound(c.id)]
  }

  function RegisteredFailures(
    s: ReleaseStatus, entries: seq<Entry>, commit: Option<string>, r: Registered, complete: bool): (f: seq<Message>) {
    match FindClaim(s.claims, r.id)
    case None => []
    case Some(c) =>
      (if c.gaRequired != Given(r.gaRequired) then [FlagDiffers(c.id)] else [])
      + if !(r.gaRequired && complete) && c.status != "passed" then Faults(CitationFault(entries, c.id), Cited(c))
        else BackingFailures(entries, commit, c)
  }

  function RegisteredCheck(
    s: ReleaseStatus, entries: seq<Entry>, commit: Option<string>, complete: bool): (f: Registered -> seq<Message>) {
    (r: Registered) => RegisteredFailures(s, entries, commit, r, complete)
  }

  lemma BackingExact(entries: seq<Entry>, commit: Option<string>, c: Claim)
    ensures BackingFailures(entries, commit, c) == [] <==> Backed(entries, commit, c)
  {
    var fault := ProofFault(entries, commit, c.id);
    NoFaults(fault, Cited(c));
    assert forall id :: fault(id).None? <==> Proves(entries, commit, id, c.id);
    if Cited(c) != [] { assert Cited(c)[|Cited(c)| - 1] in Cited(c); }
  }

  lemma CitationsExact(entries: seq<Entry>, c: Claim)
    ensures Faults(CitationFault(entries, c.id), Cited(c)) == []
      <==> forall id :: id in Cited(c) ==> Names(entries, id, c.id)
  {
    NoFaults(CitationFault(entries, c.id), Cited(c));
    assert forall id :: CitationFault(entries, c.id)(id).None? <==> Names(entries, id, c.id);
  }

  lemma {:induction false} FaultsMembers(fault: string -> Option<Message>, ids: seq<string>, m: Message)
    ensures m in Faults(fault, ids) <==> exists id :: id in ids && fault(id) == Some(m)
  {
    if ids != [] {
      var last := |ids| - 1;
      FaultsMembers(fault, ids[..last], m);
      assert ids == ids[..last] + [ids[last]];
    }
  }

  lemma {:induction false} AnyFineExact(fault: string -> Option<Message>, ids: seq<string>)
    ensures AnyFine(fault, ids) <==> exists id :: id in ids && fault(id).None?
  {
    if ids != [] {
      var last := |ids| - 1;
      AnyFineExact(fault, ids[..last]);
      assert ids == ids[..last] + [ids[last]];
    }
  }

  /** The claim must prove itself: the gate is complete and requires it, or it says it passed. */
  ghost predicate Answerable(c: Claim, r: Registered, complete: bool) {
    (r.gaRequired && complete) || c.status == "passed"
  }

  ghost predicate LastAt(entries: seq<Entry>, id: string, i: nat) {
    i < |entries| && entries[i].id == id && forall k :: i < k < |entries| ==> entries[k].id != id
  }

  /** `e` is the entry an id refers to: the last one, should several share the id. */
  ghost predicate Recorded(entries: seq<Entry>, id: string, e: Entry) {
    exists i: nat :: LastAt(entries, id, i) && entries[i] == e
  }

  lemma {:induction false} LookupAt(entries: seq<Entry>, id: string, i: nat)
    requires LastAt(entries, id, i)
    ensures Lookup(entries, id) == Some(entries[i])
  {
    if i < |entries| - 1 { LookupAt(entries[..|entries| - 1], id, i); }
  }

  lemma {:induction false} LookupFound(entries: seq<Entry>, id: string) returns (i: nat)
    requires Lookup(entries, id).Some?
    ensures LastAt(entries, id, i) && Lookup(entries, id) == Some(entries[i])
  {
    i := |entries| - 1;
    if entries[i].id != id { i := LookupFound(entries[..i], id); }
  }

  lemma LookupExact(entries: seq<Entry>, id: string, e: Entry)
    ensures Recorded(entries, id, e) <==> Lookup(entries, id) == Some(e)
  {
    if i: nat :| LastAt(entries, id, i) && entries[i] == e { LookupAt(entries, id, i); }
    if Lookup(entries, id) == Some(e) { var i := LookupFound(entries, id); }
  }

  /** What each message about a registered claim means. */
  ghost predicate Means(
    entries: seq<Entry>, commit: Option<string>, c: Claim, r: Registered, complete: bool, m: Message) {
    var proving := c.status == "passed";
    var citing := proving || !Answerable(c, r, complete);
    match m
    case FlagDiffers(claim) => claim == c.id && c.gaRequired != Given(r.gaRequired)
    case ClaimStatus(claim, status) => claim == c.id && status == c.status != "passed" && r.gaRequired && complete
    case NoEvidence(claim) => claim == c.id && proving && Cited(c) == []
    case MissingEvidence(claim, id) =>
      claim == c.id && citing && id in Cited(c) && forall e :: e in entries ==> e.id != id
    case NotEvidenceFor(claim, id) =>
      claim == c.id && citing && id in Cited(c) && exists e :: Recorded(entries, id, e) && c.id !in e.claimIds
    case EvidenceStatus(id, status) =>
      && proving && id in Cited(c) && status != "passed"
      && exists e :: Recorded(entries, id, e) && c.id in e.claimIds && e.status == status
    case EvidenceCommit(id, other) =>
      && proving && id in Cited(c) && commit != Some(other)
      && exists e :: Recorded(entries, id, e) && c.id in e.claimIds && e.status == "passed" && e.commit == other
    case NothingBound(claim) =>
      claim == c.id && proving && Cited(c) != [] && forall id :: id in Cited(c) ==> !Proves(entries, commit, id, c.id)
    case _ => false
  }

  lemma CitationMeans(entries: seq<Entry>, claim: string, id: string, m: Message)
    ensures CitationFault(entries, claim)(id) == Some(m) <==>
      || (m == MissingEvidence(claim, id) && forall e :: e in entries ==> e.id != id)
      || (m == NotEvidenceFor(claim, id) && exists e :: Recorded(entries, id, e) && claim !in e.claimIds)
  {
    forall e ensures Recorded(entries, id, e) <==> Lookup(entries, id) == Some(e) { LookupExact(entries, id, e); }
  }

  lemma ProofMeans(entries: seq<Entry>, commit: Option<string>, claim: string, id: string, m: Message)
    ensures ProofFault(entries, commit, claim)(id) == Some(m) <==>
      || (m == MissingEvidence(claim, id) && forall e :: e in entries ==> e.id != id)
      || (m == NotEvidenceFor(claim, id) && exists e :: Recorded(entries, id, e) && claim !in e.claimIds)
      || (m.EvidenceStatus? && m.id == id && m.status != "passed"
          && exists e :: Recorded(entries, id, e) && claim in e.claimIds && e.status == m.status)
      || (m.EvidenceCommit? && m.id == id && commit != Some(m.commit)
          && exists e ::
               Recorded(entries, id, e) && claim in e.claimIds && e.status == "passed" && e.commit == m.commit)
  {
    forall e ensures Recorded(entries, id, e) <==> Lookup(entries, id) == Some(e) { LookupExact(entries, id, e); }
  }

  lemma ProofsMean(entries: seq<Entry>, commit: Option<string>, c: Claim, r: Registered, complete: bool, m: Message)
    requires c.status == "passed"
    ensures m in Faults(ProofFault(entries, commit, c.id), Cited(c)) <==>
      !m.FlagDiffers? && !m.NoEvidence? && !m.NothingBound? && Means(entries, commit, c, r, complete, m)
  {
    FaultsMembers(ProofFault(entries, commit, c.id), Cited(c), m);
    forall id { ProofMeans(entries, commit, c.id, id, m); }
  }

  lemma NothingProves(entries: seq<Entry>, commit: Option<string>, c: Claim)
    ensures AnyFine(ProofFault(entries, commit, c.id), Cited(c)) <==>
      exists id :: id in Cited(c) && Proves(entries, commit, id, c.id)
  {
    var fault := ProofFault(entries, commit, c.id);
    AnyFineExact(fault, Cited(c));
    assert forall id :: fault(id).None? <==> Proves(entries, commit, id, c.id);
  }

  lemma BackingMeans(entries: seq<Entry>, commit: Option<string>, c: Claim, r: Registered, complete: bool, m: Message)
    requires Answerable(c, r, complete)
    ensures m in BackingFailures(entries, commit, c) <==>
      !m.FlagDiffers? && Means(entries, commit, c, r, complete, m)
  {
    if c.status == "passed" && Cited(c) != [] {
      ProofsMean(entries, commit, c, r, complete, m);
      NothingProves(entries, commit, c);
      var faults := Faults(ProofFault(entries, commit, c.id), Cited(c));
      var unbound := if AnyFine(ProofFault(entries, commit, c.id), Cited(c)) then [] else [NothingBound(c.id)];
      assert BackingFailures(entries, commit, c) == faults + unbound;
    }
  }

  lemma CitingMeans(entries: seq<Entry>, commit: Option<string>, c: Claim, r: Registered, complete: bool, m: Message)
    requires !Answerable(c, r, complete)
    ensures m in Faults(CitationFault(entries, c.id), Cited(c)) <==>
      !m.FlagDiffers? && Means(entries, commit, c, r, complete, m)
  {
    FaultsMembers(CitationFault(entries, c.id), Cited(c), m);
    forall id { CitationMeans(entries, c.id, id, m); }
  }

  /** About a registered claim, exactly the messages that hold are reported. */
  lemma RegisteredMeans(
    s: ReleaseStatus, entries: seq<Entry>, commit: Option<string>, r: Registered, complete: bool, c: Claim, m: Message)
    requires FindClaim(s.claims, r.id) == Some(c)
    ensures m in RegisteredFailures(s, entries, commit, r, complete) <==> Means(entries, commit, c, r, complete, m)
  {
    var flag := if c.gaRequired != Given(r.gaRequired) then [FlagDiffers(c.id)] else [];
    if Answerable(c, r, complete) {
      BackingMeans(entries, commit, c, r, complete, m);
      assert RegisteredFailures(s, entries, commit, r, complete) == flag + BackingFailures(entries, commit, c);
    } else {
      CitingMeans(entries, commit, c, r, complete, m);
      assert RegisteredFailures(s, entries, commit, r, complete)
        == flag + Faults(CitationFault(entries, c.id), Cited(c));
    }
  }

  /** A registered claim draws no failure exactly when its rule holds. */
  lemma RegisteredExact(s: ReleaseStatus, entries: seq<Entry>, commit: Option<string>, r: Registered, complete: bool)
    ensures RegisteredFailures(s, entries, commit, r, complete) == []
      <==> RegisteredHolds(s, entries, commit, r, complete)
  {
    var found := FindClaim(s.claims, r.id);
    if found.Some? {
      BackingExact(entries, commit, found.value);
      CitationsExact(entries, found.value);
    }
  }

  lemma AllExact(
    s: ReleaseStatus, entries: seq<Entry>, commit: Option<string>, registry: seq<Registered>, complete: bool)
    ensures ConcatMap(registry, RegisteredCheck(s, entries, commit, complete)) == []
      <==> forall r :: r in registry ==> RegisteredHolds(s, entries, commit, r, complete)
  {
    ConcatMapEmpty(registry, RegisteredCheck(s, entries, commit, complete));
    forall r | r in registry
      ensures RegisteredCheck(s, entries, commit, complete)(r) == []
        <==> RegisteredHolds(s, entries, commit, r, complete)
    {
      RegisteredExact(s, entries, commit, r, complete);
    }
  }

  // ---------------------------------------------------------------- checkClaimBindings

  method CheckCitations(entries: seq<Entry>, c: Claim) returns (failures: seq<Message>)
    ensures failures == Faults(CitationFault(entries, c.id), Cited(c))
  {
    failures := [];
    var ids := Cited(c);
    ghost var fault := CitationFault(entries, c.id);
    for i := 0 to |ids|
      invariant failures == Faults(fault, ids[..i])
    {
      FaultsNext(fault, ids, i);
      var entry := Lookup(entries, ids[i]);
      if entry.None? {
        failures := failures + [MissingEvidence(c.id, ids[i])];
      } else if c.id !in entry.value.claimIds {
        failures := failures + [NotEvidenceFor(c.id, ids[i])];
      }
    }
    assert ids[..|ids|] == ids;
  }

  method CheckBacking(entries: seq<Entry>, commit: Option<string>, c: Claim) returns (failures: seq<Message>)
    ensures failures == BackingFailures(entries, commit, c)
  {
    failures := [];
    if c.status != "passed" { return [ClaimStatus(c.id, c.status)]; }
    var ids := Cited(c);
    if ids == [] { return [NoEvidence(c.id)]; }
    var bound := false;
    ghost var fault := ProofFault(entries, commit, c.id);
    for i := 0 to |ids|
      invariant failures == Faults(fault, ids[..i])
      invariant bound == AnyFine(fault, ids[..i])
    {
      FaultsNext(fault, ids, i);
      var entry := Lookup(entries, ids[i]);
      if entry.None? {
        failures := failures + [MissingEvidence(c.id, ids[i])];
        continue;
      }
      if c.id !in entry.value.claimIds {
        failures := failures + [NotEvidenceFor(c.id, ids[i])];
      } else if entry.value.status != "passed" {
        failures := failures + [EvidenceStatus(ids[i], entry.value.status)];
      } else if commit.None? || entry.value.commit != commit.value {
        failures := failures + [EvidenceCommit(ids[i], entry.value.commit)];
      } else {
        bound := true;
      }
    }
    assert ids[..|ids|] == ids;
    if !bound { failures := failures + [NothingBound(c.id)]; }
  }

  /** Sorting both id lists and comparing them compares them as multisets. */
  lemma SortedIdsEqual(a: seq<string>, b: seq<string>)
    ensures Sort(a, x => x) == Sort(b, x => x) <==> multiset(a) == multiset(b)
  {
    var id: string -> string := x => x;
    if multiset(a) == multiset(b) { SortIgnoresOrder(a, b, id); }
    assert multiset(Sort(a, id)) == multiset(a) && multiset(Sort(b, id)) == multiset(b);
  }

  ghost predicate HeaderHolds(s: ReleaseStatus, commit: Option<string>, registry: seq<Registered>) {
    && s.schemaVersion == 2
    && !s.evidenceRetired
    && s.commit == commit
    && multiset(Ids(s.claims, ClaimId)) == multiset(Ids(registry, RegisteredId))
  }

  function HeaderFailures(s: ReleaseStatus, commit: Option<string>, registry: seq<Registered>): (r: seq<Message>) {
    (if s.schemaVersion != 2 then [SchemaVersion] else [])
    + (if s.evidenceRetired then [EvidenceRetired] else [])
    + (if s.commit != commit then [CandidateDiffers] else [])
    + (if multiset(Ids(s.claims, ClaimId)) != multiset(Ids(registry, RegisteredId)) then [ClaimsDiffer] else [])
  }

  method SameIds(a: seq<string>, b: seq<string>) returns (same: bool)
    ensures same <==> multiset(a) == multiset(b)
  {
    SortedIdsEqual(a, b);
    same := Sort(a, x => x) == Sort(b, x => x);
  }

  lemma HeaderExact(s: ReleaseStatus, commit: Option<string>, registry: seq<Registered>)
    ensures HeaderFailures(s, commit, registry) == [] <==> HeaderHolds(s, commit, registry)
  {
  }

  method CheckHeader(
    s: ReleaseStatus, commit: Option<string>, registry: seq<Registered>) returns (failures: seq<Message>)
    ensures failures == HeaderFailures(s, commit, registry)
  {
    failures := if s.schemaVersion != 2 then [SchemaVersion] else [];
    failures := failures + if s.evidenceRetired then [EvidenceRetired] else [];
    failures := failures + if s.commit != commit then [CandidateDiffers] else [];
    var same := SameIds(Ids(s.claims, ClaimId), Ids(registry, RegisteredId));
    failures := failures + if !same then [ClaimsDiffer] else [];
  }

  method CheckRegistered(s: ReleaseStatus, entries: seq<Entry>, commit: Option<string>, r: Registered, complete: bool)
    returns (failures: seq<Message>)
    ensures failures == RegisteredFailures(s, entries, commit, r, complete)
  {
    failures := [];
    var found := FindClaim(s.claims, r.id);
    if found.None? { return; }
    var c := found.value;
    if c.gaRequired != Given(r.gaRequired) { failures := [FlagDiffers(c.id)]; }
    var mustPass := r.gaRequired && complete;
    var more: seq<Message>;
    if !mustPass && c.status != "passed" {
      more := CheckCitations(entries, c);
    } else {
      more := CheckBacking(entries, commit, c);
    }
    failures := failures + more;
  }

  method CheckAllRegistered(s: ReleaseStatus, entries: seq<Entry>, commit: Option<string>, registry: seq<Registered>,
                            complete: bool) returns (failures: seq<Message>)
    ensures failures == ConcatMap(registry, RegisteredCheck(s, entries, commit, complete))
  {
    failures := [];
    ghost var check := RegisteredCheck(s, entries, commit, complete);
    for i := 0 to |registry|
      invariant failures == ConcatMap(registry[..i], check)
    {
      var more := CheckRegistered(s, entries, commit, registry[i], complete);
      ConcatMapNext(registry, i, check);
      failures := failures + more;
    }
    assert registry[..|registry|] == registry;
  }

  /** No failure is reported exactly when the gate's rule holds; what is reported is specified in order. */
  method CheckClaimBindings(s: ReleaseStatus, entries: seq<Entry>, commit: Option<string>, registry: seq<Registered>,
                            complete: bool) returns (failures: seq<Message>)
    ensures failures ==
      HeaderFailures(s, commit, registry) + ConcatMap(registry, RegisteredCheck(s, entries, commit, complete))
    ensures failures == [] <==> Gate(s, entries, commit, registry, complete)
  {
    failures := CheckHeader(s, commit, registry);
    HeaderExact(s, commit, registry);
    AllExact(s, entries, commit, registry, complete);
    var more := CheckAllRegistered(s, entries, commit, registry, complete);
    failures := failures + more;
  }

  /** What each message about the status as a whole means. */
  ghost predicate HeaderMeans(s: ReleaseStatus, commit: Option<string>, registry: seq<Registered>, m: Message) {
    match m
    case SchemaVersion => s.schemaVersion != 2
    case EvidenceRetired => s.evidenceRetired
    case CandidateDiffers => s.commit != commit
    case ClaimsDiffer => multiset(Ids(s.claims, ClaimId)) != multiset(Ids(registry, RegisteredId))
    case _ => false
  }

  /** The message holds of the claim that a registration finds. */
  ghost predicate FoundMeans(
    s: ReleaseStatus, entries: seq<Entry>, commit: Option<string>, r: Registered, complete: bool, m: Message) {
    var found := FindClaim(s.claims, r.id);
    found.Some? && Means(entries, commit, found.value, r, complete, m)
  }

  lemma HeaderFailuresMean(s: ReleaseStatus, commit: Option<string>, registry: seq<Registered>, m: Message)
    ensures m in HeaderFailures(s, commit, registry) <==> HeaderMeans(s, commit, registry, m)
  {
  }

  lemma CheckMeans(
    s: ReleaseStatus, entries: seq<Entry>, commit: Option<string>, r: Registered, complete: bool, m: Message)
    ensures m in RegisteredCheck(s, entries, commit, complete)(r) <==> FoundMeans(s, entries, commit, r, complete, m)
  {
    var found := FindClaim(s.claims, r.id);
    if found.Some? { RegisteredMeans(s, entries, commit, r, complete, found.value, m); }
  }

  lemma RegistryMeans(
    s: ReleaseStatus, entries: seq<Entry>, commit: Option<string>, registry: seq<Registered>, complete: bool,
    m: Message)
    ensures m in ConcatMap(registry, RegisteredCheck(s, entries, commit, complete)) <==>
      exists r :: r in registry && FoundMeans(s, entries, commit, r, complete, m)
  {
    ConcatMapMembers(registry, RegisteredCheck(s, entries, commit, complete), m);
    forall r ensures m in RegisteredCheck(s, entries, commit, complete)(r) <==>
      FoundMeans(s, entries, commit, r, complete, m)
    {
      CheckMeans(s, entries, commit, r, complete, m);
    }
  }

  /** The gate reports exactly the messages that hold. */
  lemma GateMeans(
    s: ReleaseStatus, entries: seq<Entry>, commit: Option<string>, registry: seq<Registered>, complete: bool,
    m: Message)
    ensures var header := HeaderFailures(s, commit, registry);
      var claims := ConcatMap(registry, RegisteredCheck(s, entries, commit, complete));
      m in header + claims <==>
        (HeaderMeans(s, commit, registry, m)
         || exists r :: r in registry && FoundMeans(s, entries, commit, r, complete, m))
  {
    HeaderFailuresMean(s, commit, registry, m);
    RegistryMeans(s, entries, commit, registry, complete, m);
  }

  // ---------------------------------------------------------------- consequences

  /** Complete mode is stricter than integrity mode. */
  lemma CompleteImpliesIntegrity(
    s: ReleaseStatus, entries: seq<Entry>, commit: Option<string>, registry: seq<Registered>)
    requires Gate(s, entries, commit, registry, true)
    ensures Gate(s, entries, commit, registry, false)
  {
    forall r | r in registry ensures RegisteredHolds(s, entries, commit, r, false) {
      assert RegisteredHolds(s, entries, commit, r, true);
    }
  }

  ghost predicate UniqueRegistry(registry: seq<Registered>) {
    forall i, j :: 0 <= i < j < |registry| ==> registry[i].id != registry[j].id
  }

  ghost predicate UniqueClaims(claims: seq<Claim>) {
    forall i, j :: 0 <= i < j < |claims| ==> claims[i].id != claims[j].id
  }

  lemma {:induction false} OccursAtMostOnce(ids: seq<string>, i: nat, j: nat)
    requires i < j < |ids| && ids[i] == ids[j]
    ensures multiset(ids)[ids[i]] >= 2
  {
    assert ids == ids[..i] + [ids[i]] + ids[i + 1..];
    assert ids[j] == ids[i + 1..][j - i - 1];
    assert multiset(ids) == multiset(ids[..i]) + multiset{ids[i]} + multiset(ids[i + 1..]);
    assert ids[j] in multiset(ids[i + 1..]);
  }

  lemma {:induction false} DistinctOccurOnce(ids: seq<string>, x: string)
    requires forall i, j :: 0 <= i < j < |ids| ==> ids[i] != ids[j]
    ensures multiset(ids)[x] <= 1
  {
    if ids != [] {
      assert ids == [ids[0]] + ids[1..];
      DistinctOccurOnce(ids[1..], x);
      assert forall k :: 0 <= k < |ids[1..]| ==> ids[1..][k] != ids[0];
    }
  }

  /** With a registry of distinct ids, a status with the same ids has one claim per registered id. */
  lemma IdsMatch(s: ReleaseStatus, registry: seq<Registered>)
    requires UniqueRegistry(registry)
    requires multiset(Ids(s.claims, ClaimId)) == multiset(Ids(registry, RegisteredId))
    ensures UniqueClaims(s.claims)
    ensures forall c :: c in s.claims ==> exists r :: r in registry && r.id == c.id
    ensures forall r :: r in registry ==> FindClaim(s.claims, r.id).Some?
  {
    var a, b := Ids(s.claims, ClaimId), Ids(registry, RegisteredId);
    forall i, j | 0 <= i < j < |s.claims| ensures s.claims[i].id != s.claims[j].id {
      if s.claims[i].id == s.claims[j].id {
        OccursAtMostOnce(a, i, j);
        DistinctOccurOnce(b, a[i]);
      }
    }
    forall c | c in s.claims ensures exists r :: r in registry && r.id == c.id {
      var i :| 0 <= i < |s.claims| && s.claims[i] == c;
      InMultiset(a, b, i);
      var j :| 0 <= j < |b| && b[j] == a[i];
      assert registry[j].id == c.id;
    }
    forall r | r in registry ensures FindClaim(s.claims, r.id).Some? {
      var i :| 0 <= i < |registry| && registry[i] == r;
      InMultiset(b, a, i);
      var j :| 0 <= j < |a| && a[j] == b[i];
      assert s.claims[j].id == r.id;
    }
  }

  lemma FindOnly(claims: seq<Claim>, c: Claim)
    requires UniqueClaims(claims) && c in claims
    ensures FindClaim(claims, c.id) == Some(c)
  {
  }

  /** What the complete gate asks of one claim under its registration. */
  ghost predicate ClaimStands(entries: seq<Entry>, commit: Option<string>, c: Claim, r: Registered) {
    && c.gaRequired == Given(r.gaRequired)
    && (r.gaRequired || c.status == "passed" ==> Backed(entries, commit, c))
    && (!r.gaRequired && c.status != "passed" ==> forall id :: id in Cited(c) ==> Names(entries, id, c.id))
  }

  lemma StandsWhereFound(
    s: ReleaseStatus, entries: seq<Entry>, commit: Option<string>, registry: seq<Registered>, c: Claim, r: Registered)
    requires UniqueRegistry(registry) && HeaderHolds(s, commit, registry) && c in s.claims && r.id == c.id
    ensures RegisteredHolds(s, entries, commit, r, true) <==> ClaimStands(entries, commit, c, r)
  {
    IdsMatch(s, registry);
    FindOnly(s.claims, c);
  }

  /**
   Read claim by claim: the complete gate passes only if every claim the
   registry requires, and every claim that says it passed, is backed by existing,
   naming, passing evidence on the candidate; and that, with matching ids and
   flags, is all it takes.
   */
  lemma GateByClaim(s: ReleaseStatus, entries: seq<Entry>, commit: Option<string>, registry: seq<Registered>)
    requires UniqueRegistry(registry)
    requires HeaderHolds(s, commit, registry)
    ensures Gate(s, entries, commit, registry, true) <==>
      forall c, r :: c in s.claims && r in registry && r.id == c.id ==> ClaimStands(entries, commit, c, r)
  {
    forall c, r | c in s.claims && r in registry && r.id == c.id
      ensures RegisteredHolds(s, entries, commit, r, true) <==> ClaimStands(entries, commit, c, r)
    {
      StandsWhereFound(s, entries, commit, registry, c, r);
    }
    IdsMatch(s, registry);
  }

  // ---------------------------------------------------------------- the twin in check-doc-truth

  /** The twin's evidence rules for one claim. */
  predicate TwinAccepts(entries: seq<Entry>, commit: Option<string>, c: Claim) {
    && c.evidenceIds.Some?
    && (c.status == "passed" ==> c.evidenceIds.value != [])
    && forall id :: id in c.evidenceIds.value ==>
         Names(entries, id, c.id) && (c.status == "passed" ==> Proves(entries, commit, id, c.id))
  }

  predicate WellFormedClaim(c: Claim) {
    && c.surface in ["native", "wasm", "release"]
    && c.status in ["passed", "pending", "failed"]
    && c.gaRequired != NotBoolean
  }

  datatype Violation =
    | NotAnArray(index: nat)
    | NoEvidenceId(index: nat)
    | UnknownEvidence(index: nat, id: string)
    | NotRecorded(index: nat, id: string)
    | NotPassing(index: nat, id: string)
    | OtherCommit(index: nat, id: string)
    | EmptyId(index: nat)
    | DuplicateId(index: nat)
    | BadSurface(index: nat)
    | BadStatus(index: nat)
    | BadFlag(index: nat)

  function TwinFault(
    entries: seq<Entry>, commit: Option<string>, c: Claim, index: nat, id: string): (r: Option<Violation>) {
    var e := Lookup(entries, id);
    if e.None? then Some(UnknownEvidence(index, id))
    else if c.id !in e.value.claimIds then Some(NotRecorded(index, id))
    else if c.status == "passed" && e.value.status != "passed" then Some(NotPassing(index, id))
    else if c.status == "passed" && commit != Some(e.value.commit) then Some(OtherCommit(index, id))
    else None
  }

  function TwinFaults(
    entries: seq<Entry>, commit: Option<string>, c: Claim, index: nat, ids: seq<string>): (r: seq<Violation>) {
    if ids == [] then []
    else
      var last := TwinFault(entries, commit, c, index, ids[|ids| - 1]);
      TwinFaults(entries, commit, c, index, ids[..|ids| - 1]) + if last.Some? then [last.value] else []
  }

  lemma {:induction false} NoTwinFaults(
    entries: seq<Entry>, commit: Option<string>, c: Claim, index: nat, ids: seq<string>)
    ensures TwinFaults(entries, commit, c, index, ids) == []
      <==> forall id :: id in ids ==> TwinFault(entries, commit, c, index, id).None?
  {
    if ids != [] {
      NoTwinFaults(entries, commit, c, index, ids[..|ids| - 1]);
      assert ids == ids[..|ids| - 1] + [ids[|ids| - 1]];
    }
  }

  function TwinEvidence(entries: seq<Entry>, commit: Option<string>, c: Claim, index: nat): (r: seq<Violation>) {
    (if c.evidenceIds.None? then [NotAnArray(index)] else [])
    + (if c.status == "passed" && Cited(c) == [] then [NoEvidenceId(index)] else [])
    + TwinFaults(entries, commit, c, index, Cited(c))
  }

  lemma TwinEvidenceExact(entries: seq<Entry>, commit: Option<string>, c: Claim, index: nat)
    ensures TwinEvidence(entries, commit, c, index) == [] <==> TwinAccepts(entries, commit, c)
  {
    NoTwinFaults(entries, commit, c, index, Cited(c));
  }

  method TwinCheckEvidence(
    entries: seq<Entry>, commit: Option<string>, c: Claim, index: nat) returns (violations: seq<Violation>)
    ensures violations == TwinEvidence(entries, commit, c, index)
  {
    violations := [];
    if c.evidenceIds.None? { violations := violations + [NotAnArray(index)]; }
    var ids := Cited(c);
    if c.status == "passed" && ids == [] { violations := violations + [NoEvidenceId(index)]; }
    ghost var header := violations;
    for i := 0 to |ids|
      invariant violations == header + TwinFaults(entries, commit, c, index, ids[..i])
    {
      assert ids[..i + 1][..i] == ids[..i];
      var entry := Lookup(entries, ids[i]);
      if entry.None? {
        violations := violations + [UnknownEvidence(index, ids[i])];
      } else if c.id !in entry.value.claimIds {
        violations := violations + [NotRecorded(index, ids[i])];
      } else if c.status == "passed" && entry.value.status != "passed" {
        violations := violations + [NotPassing(index, ids[i])];
      } else if c.status == "passed" && (commit.None? || entry.value.commit != commit.value) {
        violations := violations + [OtherCommit(index, ids[i])];
      }
    }
    assert ids[..|ids|] == ids;
  }

  function ClaimViolations(
    entries: seq<Entry>, commit: Option<string>, c: Claim, index: nat, duplicate: bool): (r: seq<Violation>) {
    if c.id == "" then [EmptyId(index)]
    else ShapeViolations(c, index, duplicate) + TwinEvidence(entries, commit, c, index)
  }

  function ShapeViolations(c: Claim, index: nat, duplicate: bool): (r: seq<Violation>) {
    (if duplicate then [DuplicateId(index)] else [])
    + (if c.surface !in ["native", "wasm", "release"] then [BadSurface(index)] else [])
    + (if c.status !in ["passed", "pending", "failed"] then [BadStatus(index)] else [])
    + (if c.gaRequired == NotBoolean then [BadFlag(index)] else [])
  }

  predicate ClaimAccepted(entries: seq<Entry>, commit: Option<string>, c: Claim) {
    c.id != "" && WellFormedClaim(c) && TwinAccepts(entries, commit, c)
  }

  lemma ClaimExact(entries: seq<Entry>, commit: Option<string>, c: Claim, index: nat, duplicate: bool)
    ensures ClaimViolations(entries, commit, c, index, duplicate) == []
      <==> ClaimAccepted(entries, commit, c) && !duplicate
  {
    TwinEvidenceExact(entries, commit, c, index);
  }

  type ClaimCheck = (Claim, nat, bool) -> seq<Violation>

  function TwinCheck(entries: seq<Entry>, commit: Option<string>): (f: ClaimCheck) {
    (c: Claim, index: nat, duplicate: bool) => ClaimViolations(entries, commit, c, index, duplicate)
  }

  /** What a check reports over a list of claims, in order. */
  function ClaimsViolations(check: ClaimCheck, claims: seq<Claim>): (r: seq<Violation>) {
    if claims == [] then []
    else
      var i := |claims| - 1;
      ClaimsViolations(check, claims[..i]) + check(claims[i], i, claims[i].id in IdsOf(claims[..i]))
  }

  function IdsOf(claims: seq<Claim>): (r: set<string>) { set c | c in claims :: c.id }

  lemma {:induction false} ClaimsExact(check: ClaimCheck, accepted: Claim -> bool, claims: seq<Claim>)
    requires forall c, i: nat, d :: check(c, i, d) == [] <==> accepted(c) && !d
    ensures ClaimsViolations(check, claims) == [] <==> UniqueClaims(claims) && forall c :: c in claims ==> accepted(c)
  {
    if claims != [] {
      var i := |claims| - 1;
      var before, last := claims[..i], claims[i];
      ClaimsExact(check, accepted, before);
      assert claims == before + [last];
      UniqueNext(before, last);
    }
  }

  lemma UniqueNext(before: seq<Claim>, last: Claim)
    ensures UniqueClaims(before + [last]) <==> UniqueClaims(before) && last.id !in IdsOf(before)
  {
    var all := before + [last];
    if UniqueClaims(all) {
      assert forall k :: 0 <= k < |before| ==> before[k] == all[k] && all[k].id != all[|before|].id;
    }
  }

  /** What each violation of claim `i` means. */
  ghost predicate TwinMeans(
      entries: seq<Entry>, commit: Option<string>, c: Claim, i: nat, duplicate: bool, v: Violation) {
    && v.index == i
    && (v.EmptyId? <==> c.id == "")
    && match v
       case EmptyId(_) => true
       case DuplicateId(_) => duplicate
       case BadSurface(_) => c.surface != "native" && c.surface != "wasm" && c.surface != "release"
       case BadStatus(_) => c.status != "passed" && c.status != "pending" && c.status != "failed"
       case BadFlag(_) => c.gaRequired == NotBoolean
       case NotAnArray(_) => c.evidenceIds.None?
       case NoEvidenceId(_) => c.status == "passed" && Cited(c) == []
       case UnknownEvidence(_, id) => id in Cited(c) && forall e :: e in entries ==> e.id != id
       case NotRecorded(_, id) => id in Cited(c) && exists e :: Recorded(entries, id, e) && c.id !in e.claimIds
       case NotPassing(_, id) =>
         && id in Cited(c) && c.status == "passed"
         && exists e :: Recorded(entries, id, e) && c.id in e.claimIds && e.status != "passed"
       case OtherCommit(_, id) =>
         && id in Cited(c) && c.status == "passed"
         && exists e ::
              Recorded(entries, id, e) && c.id in e.claimIds && e.status == "passed" && commit != Some(e.commit)
  }

  lemma {:induction false} TwinFaultsMembers(
    entries: seq<Entry>, commit: Option<string>, c: Claim, index: nat, ids: seq<string>, v: Violation)
    ensures v in TwinFaults(entries, commit, c, index, ids)
      <==> exists id :: id in ids && TwinFault(entries, commit, c, index, id) == Some(v)
  {
    if ids != [] {
      var last := |ids| - 1;
      TwinFaultsMembers(entries, commit, c, index, ids[..last], v);
      assert ids == ids[..last] + [ids[last]];
    }
  }

  ghost predicate AboutEvidence(v: Violation) {
    v.UnknownEvidence? || v.NotRecorded? || v.NotPassing? || v.OtherCommit?
  }

  lemma TwinFaultMeans(entries: seq<Entry>, commit: Option<string>, c: Claim, i: nat, id: string, v: Violation)
    requires c.id != "" && id in Cited(c)
    ensures TwinFault(entries, commit, c, i, id) == Some(v) <==>
      AboutEvidence(v) && v.id == id && TwinMeans(entries, commit, c, i, false, v)
  {
    forall e ensures Recorded(entries, id, e) <==> Lookup(entries, id) == Some(e) { LookupExact(entries, id, e); }
  }

  /** About one claim, the twin reports exactly the violations there are. */
  lemma ClaimMeans(
    entries: seq<Entry>, commit: Option<string>, c: Claim, i: nat, duplicate: bool, v: Violation)
    ensures v in ClaimViolations(entries, commit, c, i, duplicate) <==> TwinMeans(entries, commit, c, i, duplicate, v)
  {
    if c.id != "" {
      EvidenceMeans(entries, commit, c, i, v);
      ShapeMeans(c, i, duplicate, v);
    }
  }

  lemma ShapeMeans(c: Claim, i: nat, duplicate: bool, v: Violation)
    requires c.id != ""
    ensures v in ShapeViolations(c, i, duplicate) <==>
      (v.DuplicateId? || v.BadSurface? || v.BadStatus? || v.BadFlag?) && TwinMeans([], None, c, i, duplicate, v)
  {
    var a := if duplicate then [DuplicateId(i)] else [];
    var b := if c.surface !in ["native", "wasm", "release"] then [BadSurface(i)] else [];
    var d := if c.status !in ["passed", "pending", "failed"] then [BadStatus(i)] else [];
    var e := if c.gaRequired == NotBoolean then [BadFlag(i)] else [];
    assert ShapeViolations(c, i, duplicate) == a + b + d + e;
  }

  lemma EvidenceMeans(entries: seq<Entry>, commit: Option<string>, c: Claim, i: nat, v: Violation)
    requires c.id != ""
    ensures v in TwinEvidence(entries, commit, c, i) <==>
      (v.NotAnArray? || v.NoEvidenceId? || AboutEvidence(v)) && TwinMeans(entries, commit, c, i, false, v)
  {
    TwinFaultsMembers(entries, commit, c, i, Cited(c), v);
    forall id | id in Cited(c)
      ensures TwinFault(entries, commit, c, i, id) == Some(v) <==>
        AboutEvidence(v) && v.id == id && TwinMeans(entries, commit, c, i, false, v)
    {
      TwinFaultMeans(entries, commit, c, i, id, v);
    }
  }

  ghost predicate Draws(check: ClaimCheck, claims: seq<Claim>, i: nat, v: Violation)
    requires i < |claims|
  {
    v in check(claims[i], i, claims[i].id in IdsOf(claims[..i]))
  }

  lemma {:induction false} ClaimsMembers(check: ClaimCheck, claims: seq<Claim>, v: Violation)
    ensures v in ClaimsViolations(check, claims) <==> exists i: nat :: i < |claims| && Draws(check, claims, i, v)
  {
    if claims != [] {
      var last := |claims| - 1;
      var before := claims[..last];
      ClaimsMembers(check, before, v);
      forall i: nat | i < last ensures Draws(check, before, i, v) <==> Draws(check, claims, i, v) {
        assert before[i] == claims[i] && before[..i] == claims[..i];
      }
      assert ClaimsViolations(check, claims) ==
        ClaimsViolations(check, before) + check(claims[last], last, claims[last].id in IdsOf(before));
      assert Draws(check, claims, last, v) <==> v in check(claims[last], last, claims[last].id in IdsOf(before));
    }
  }

  /** Over all claims, likewise; a claim is a duplicate if its id occurs before it. */
  lemma ClaimsMean(entries: seq<Entry>, commit: Option<string>, claims: seq<Claim>, v: Violation)
    ensures v in ClaimsViolations(TwinCheck(entries, commit), claims) <==>
      exists i: nat :: i < |claims|
                       && TwinMeans(entries, commit, claims[i], i, claims[i].id in IdsOf(claims[..i]), v)
  {
    var check := TwinCheck(entries, commit);
    ClaimsMembers(check, claims, v);
    forall i: nat | i < |claims|
      ensures Draws(check, claims, i, v) <==>
        TwinMeans(entries, commit, claims[i], i, claims[i].id in IdsOf(claims[..i]), v)
    {
      ClaimMeans(entries, commit, claims[i], i, claims[i].id in IdsOf(claims[..i]), v);
    }
  }

  /** One claim; `seen` holds the ids before it. */
  method CheckClaim(entries: seq<Entry>, commit: Option<string>, c: Claim, index: nat, seen: set<string>)
    returns (violations: seq<Violation>)
    ensures violations == ClaimViolations(entries, commit, c, index, c.id in seen)
  {
    if c.id == "" { return [EmptyId(index)]; }
    violations := CheckShape(c, index, c.id in seen);
    var more := TwinCheckEvidence(entries, commit, c, index);
    violations := violations + more;
  }

  method CheckShape(c: Claim, index: nat, duplicate: bool) returns (violations: seq<Violation>)
    ensures violations == ShapeViolations(c, index, duplicate)
  {
    violations := [];
    if duplicate { violations := violations + [DuplicateId(index)]; }
    if c.surface !in ["native", "wasm", "release"] { violations := violations + [BadSurface(index)]; }
    if c.status !in ["passed", "pending", "failed"] { violations := violations + [BadStatus(index)]; }
    if c.gaRequired == NotBoolean { violations := violations + [BadFlag(index)]; }
  }

  /**
   `checkClaims`: reports what is specified, in order, and nothing exactly when
   ids are present and distinct and every claim is well formed and accepted.
   */
  method CheckClaims(
    claims: seq<Claim>, entries: seq<Entry>, commit: Option<string>) returns (violations: seq<Violation>)
    ensures violations == ClaimsViolations(TwinCheck(entries, commit), claims)
    ensures violations == [] <==> UniqueClaims(claims) && forall c :: c in claims ==> ClaimAccepted(entries, commit, c)
  {
    violations := VisitClaims(claims, entries, commit);
    forall c, i: nat, d ensures TwinCheck(entries, commit)(c, i, d) == [] <==> ClaimAccepted(entries, commit, c) && !d {
      ClaimExact(entries, commit, c, i, d);
    }
    ClaimsExact(TwinCheck(entries, commit), c => ClaimAccepted(entries, commit, c), claims);
  }

  /** The loop over the claims. */
  method VisitClaims(
    claims: seq<Claim>, entries: seq<Entry>, commit: Option<string>) returns (violations: seq<Violation>)
    ensures violations == ClaimsViolations(TwinCheck(entries, commit), claims)
  {
    violations := [];
    ghost var check := TwinCheck(entries, commit);
    var seen: set<string> := {};
    for i := 0 to |claims|
      invariant seen == IdsOf(claims[..i]) - {""}
      invariant violations == ClaimsViolations(check, claims[..i])
    {
      var c := claims[i];
      var more := CheckClaim(entries, commit, c, i, seen);
      SeenOrEmpty(entries, commit, c, i, IdsOf(claims[..i]));
      VisitNext(check, claims, i, seen, more);
      violations := violations + more;
      if c.id != "" { seen := seen + {c.id}; }
    }
    assert claims[..|claims|] == claims;
  }

  lemma VisitNext(check: ClaimCheck, claims: seq<Claim>, i: nat, seen: set<string>, more: seq<Violation>)
    requires i < |claims| && seen == IdsOf(claims[..i]) - {""}
    requires more == check(claims[i], i, claims[i].id in IdsOf(claims[..i]))
    ensures ClaimsViolations(check, claims[..i + 1]) == ClaimsViolations(check, claims[..i]) + more
    ensures IdsOf(claims[..i + 1]) - {""} == if claims[i].id == "" then seen else seen + {claims[i].id}
  {
    assert claims[..i + 1][..i] == claims[..i] && claims[..i + 1] == claims[..i] + [claims[i]];
    IdsNext(claims[..i], claims[i]);
  }

  lemma IdsNext(before: seq<Claim>, last: Claim)
    ensures IdsOf(before + [last]) == IdsOf(before) + {last.id}
  {
    var all := before + [last];
    assert last in all;
    assert forall c :: c in before ==> c in all;
    assert forall c :: c in all ==> c in before || c == last;
  }

  /** A claim without an id is reported as such, duplicate or not. */
  lemma SeenOrEmpty(entries: seq<Entry>, commit: Option<string>, c: Claim, index: nat, ids: set<string>)
    ensures ClaimViolations(entries, commit, c, index, c.id in ids - {""})
      == ClaimViolations(entries, commit, c, index, c.id in ids)
  {
  }

  /**
   On one claim the two implementations' evidence rules give the same verdict
   except for one family: a claim that has not passed and carries no evidence
   list at all is accepted by the gate and refused by the twin.
   */
  lemma TwinAgreesOnClaim(entries: seq<Entry>, commit: Option<string>, c: Claim)
    ensures (ClaimHolds(entries, commit, c, false) <==> TwinAccepts(entries, commit, c))
      <==> c.status == "passed" || c.evidenceIds.Some?
  {
  }

  lemma TwinDisagrees(entries: seq<Entry>, commit: Option<string>)
    ensures var c := Claim("soak", "release", "pending", None, Given(true));
      ClaimHolds(entries, commit, c, false) && !TwinAccepts(entries, commit, c)
  {
  }

  /**
   So on a status with the registry's ids, flags and candidate, where every
   pending claim carries its list, integrity mode passes exactly when the twin
   accepts the evidence of every claim.
   */
  lemma TwinAgrees(s: ReleaseStatus, entries: seq<Entry>, commit: Option<string>, registry: seq<Registered>)
    requires UniqueRegistry(registry)
    requires HeaderHolds(s, commit, registry)
    requires forall c, r :: c in s.claims && r in registry && r.id == c.id ==> c.gaRequired == Given(r.gaRequired)
    requires forall c :: c in s.claims ==> c.status == "passed" || c.evidenceIds.Some?
    ensures Gate(s, entries, commit, registry, false) <==>
      forall c :: c in s.claims ==> TwinAccepts(entries, s.commit, c)
  {
    IdsMatch(s, registry);
    forall c | c in s.claims
      ensures ClaimHolds(entries, commit, c, false) <==> TwinAccepts(entries, commit, c)
      ensures FindClaim(s.claims, c.id) == Some(c)
    {
      TwinAgreesOnClaim(entries, commit, c);
      FindOnly(s.claims, c);
    }
    if Gate(s, entries, commit, registry, false) {
      forall c | c in s.claims ensures TwinAccepts(entries, commit, c) {
        var r :| r in registry && r.id == c.id;
        assert RegisteredHolds(s, entries, commit, r, false);
      }
    }
    if forall c :: c in s.claims ==> TwinAccepts(entries, commit, c) {
      forall r | r in registry ensures RegisteredHolds(s, entries, commit, r, false) {
        var c := FindClaim(s.claims, r.id).value;
      }
    }
  }
}
