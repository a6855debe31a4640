/**
 The evidence manifest and the merging of entries into it.

 Merging is a loop that checks one entry at a time against a growing list, so
 whether it succeeds looks order dependent. It is not: success is a condition on
 the set of entries alone, and the serialized result is the same in every order.
 */
module Manifest {
  import opened Results
  import opened Sorting

  datatype Entry = Entry(
    id: string,
    claimIds: seq<string>,
    asset: string,
    size: nat,
    sha256: string,
    commit: string,
    status: string,
    producer: string,
    createdAt: string,
    files: seq<string>)

  function EntryId(e: Entry): string { e.id }

  datatype MergeError = WrongCommit(id: string) | ConflictingEntry(id: string) | AssetRecorded(asset: string)

  // ---------------------------------------------------------------- specification

  /** The first entry with the given id. */
  function Find(entries: seq<Entry>, id: string): (r: Option<Entry>)
    ensures r.Some? ==> r.value in entries && r.value.id == id
    ensures r.None? ==> forall e :: e in entries ==> e.id != id
  {
    if entries == [] then None
    else if entries[0].id == id then Some(entries[0])
    else
      assert entries == [entries[0]] + entries[1..];
      Find(entries[1..], id)
  }

  predicate HasAsset(entries: seq<Entry>, asset: string) {
    exists i :: 0 <= i < |entries| && entries[i].asset == asset
  }

  function MergeOne(candidate: Option<string>, entries: seq<Entry>, e: Entry): (r: Result<seq<Entry>, MergeError>) {
    if candidate != Some(e.commit) then Err(WrongCommit(e.id))
    else match Find(entries, e.id)
      case Some(existing) => if existing == e then Ok(entries) else Err(ConflictingEntry(e.id))
      case None => if HasAsset(entries, e.asset) then Err(AssetRecorded(e.asset)) else Ok(entries + [e])
  }

  function Merge(candidate: Option<string>, entries: seq<Entry>, add: seq<Entry>): (r: Result<seq<Entry>, MergeError>)
    decreases |add|
  {
    if add == [] then Ok(entries)
    else match MergeOne(candidate, entries, add[0])
      case Err(e) => Err(e)
      case Ok(grown) => Merge(candidate, grown, add[1..])
  }

  /** The entries of a manifest file, in the order they are written out. */
  function Serialized(entries: seq<Entry>): (r: seq<Entry>) { Sort(entries, EntryId) }

  ghost predicate UniqueIds(entries: seq<Entry>) {
    forall i, j :: 0 <= i < j < |entries| ==> entries[i].id != entries[j].id
  }

  ghost predicate UniqueAssets(entries: seq<Entry>) {
    forall i, j :: 0 <= i < j < |entries| ==> entries[i].asset != entries[j].asset
  }

  ghost predicate OnCandidate(candidate: Option<string>, entries: seq<Entry>) {
    forall e :: e in entries ==> candidate == Some(e.commit)
  }

  /** Two entries that may stand in one manifest. */
  predicate Compatible(x: Entry, y: Entry) { x == y || (x.id != y.id && x.asset != y.asset) }

  ghost predicate CompatibleWithAll(y: Entry, entries: seq<Entry>) {
    forall x :: x in entries ==> Compatible(x, y)
  }

  /** Every added entry is on the candidate, and is already recorded or clashes with nothing. */
  ghost predicate Mergeable(candidate: Option<string>, entries: seq<Entry>, add: seq<Entry>) {
    && OnCandidate(candidate, add)
    && forall y :: y in add ==> y in entries || CompatibleWithAll(y, entries + add)
  }

  // ---------------------------------------------------------------- one entry

  lemma UniqueId(entries: seq<Entry>, x: Entry, y: Entry)
    requires UniqueIds(entries) && x in entries && y in entries && x.id == y.id
    ensures x == y
  {
  }

  lemma MergeOneIff(candidate: Option<string>, entries: seq<Entry>, y: Entry)
    requires UniqueIds(entries)
    ensures MergeOne(candidate, entries, y).Ok? <==>
      candidate == Some(y.commit) && (y in entries || CompatibleWithAll(y, entries))
    ensures MergeOne(candidate, entries, y).Ok? ==>
      MergeOne(candidate, entries, y).value == if y in entries then entries else entries + [y]
  {
    var f := Find(entries, y.id);
    if y in entries {
      UniqueId(entries, f.value, y);
    } else if f.None? && HasAsset(entries, y.asset) {
      var i :| 0 <= i < |entries| && entries[i].asset == y.asset;
      assert !Compatible(entries[i], y);
    } else if f.Some? {
      assert !Compatible(f.value, y);
    } else {
      forall x | x in entries ensures Compatible(x, y) {
        var i :| 0 <= i < |entries| && entries[i] == x;
        assert x.asset != y.asset;
      }
    }
  }

  lemma GrownUnique(entries: seq<Entry>, y: Entry)
    requires UniqueIds(entries) && y !in entries && CompatibleWithAll(y, entries)
    ensures UniqueIds(entries + [y]) && (UniqueAssets(entries) ==> UniqueAssets(entries + [y]))
  {
    forall i | 0 <= i < |entries| ensures entries[i].id != y.id && entries[i].asset != y.asset {
      assert Compatible(entries[i], y);
    }
  }

  // ---------------------------------------------------------------- success is order free

  lemma MergeableDuplicate(candidate: Option<string>, entries: seq<Entry>, y: Entry, rest: seq<Entry>)
    requires y in entries && candidate == Some(y.commit)
    ensures Mergeable(candidate, entries, [y] + rest) <==> Mergeable(candidate, entries, rest)
  {
    assert forall x :: x in entries + ([y] + rest) <==> x in entries + rest;
    assert forall x :: x in [y] + rest <==> x == y || x in rest;
    assert forall z :: CompatibleWithAll(z, entries + ([y] + rest)) <==> CompatibleWithAll(z, entries + rest);
  }

  lemma MergeableNew(candidate: Option<string>, entries: seq<Entry>, y: Entry, rest: seq<Entry>)
    requires y !in entries && candidate == Some(y.commit)
    ensures Mergeable(candidate, entries, [y] + rest)
      <==> CompatibleWithAll(y, entries) && Mergeable(candidate, entries + [y], rest)
  {
    var all, all' := entries + ([y] + rest), entries + [y] + rest;
    assert all == all';
    assert forall x :: x in [y] + rest <==> x == y || x in rest;
    if Mergeable(candidate, entries, [y] + rest) {
      assert y in [y] + rest;
      assert forall x :: x in entries ==> x in all;
    }
    if CompatibleWithAll(y, entries) && Mergeable(candidate, entries + [y], rest) {
      forall x | x in all ensures Compatible(x, y) {
        if x !in entries && x != y {
          assert x in rest && CompatibleWithAll(x, all') && y in all';
          assert Compatible(y, x);
        }
      }
      assert CompatibleWithAll(y, all);
    }
  }

  /** Merging succeeds exactly when the condition on the whole set holds. */
  lemma {:induction false} MergeIff(candidate: Option<string>, entries: seq<Entry>, add: seq<Entry>)
    requires UniqueIds(entries)
    ensures Merge(candidate, entries, add).Ok? <==> Mergeable(candidate, entries, add)
    decreases |add|
  {
    if add != [] {
      var y, rest := add[0], add[1..];
      assert add == [y] + rest;
      MergeOneIff(candidate, entries, y);
      if candidate != Some(y.commit) {
        assert y in add;
      } else if y in entries {
        MergeableDuplicate(candidate, entries, y, rest);
        MergeIff(candidate, entries, rest);
      } else {
        MergeableNew(candidate, entries, y, rest);
        if CompatibleWithAll(y, entries) {
          GrownUnique(entries, y);
          MergeIff(candidate, entries + [y], rest);
        }
      }
    }
  }

  /** For a manifest without clashes the condition is pairwise compatibility of everything involved. */
  lemma MergeablePairwise(candidate: Option<string>, entries: seq<Entry>, add: seq<Entry>)
    requires UniqueIds(entries) && UniqueAssets(entries)
    ensures Mergeable(candidate, entries, add) <==>
      OnCandidate(candidate, add) && forall x, y :: x in entries + add && y in entries + add ==> Compatible(x, y)
  {
  }

  /**
   What a merge leaves: the old entries as a prefix, exactly the union as
   contents, ids (and assets) still unique, everything on the candidate.
   */
  lemma {:induction false} MergeContents(candidate: Option<string>, entries: seq<Entry>, add: seq<Entry>)
    requires UniqueIds(entries) && Merge(candidate, entries, add).Ok?
    ensures var r := Merge(candidate, entries, add).value;
      && entries <= r
      && UniqueIds(r)
      && (UniqueAssets(entries) ==> UniqueAssets(r))
      && (OnCandidate(candidate, entries) ==> OnCandidate(candidate, r))
      && (forall e :: e in r <==> e in entries || e in add)
    decreases |add|
  {
    if add != [] {
      var y, rest := add[0], add[1..];
      assert add == [y] + rest;
      MergeOneIff(candidate, entries, y);
      if y !in entries { GrownUnique(entries, y); }
      MergeContents(candidate, MergeOne(candidate, entries, y).value, rest);
    }
  }

  /** Merging twice in a row is merging the concatenation. */
  lemma {:induction false} MergeConcat(candidate: Option<string>, entries: seq<Entry>, a: seq<Entry>, b: seq<Entry>)
    requires Merge(candidate, entries, a).Ok?
    ensures Merge(candidate, entries, a + b) == Merge(candidate, Merge(candidate, entries, a).value, b)
    decreases |a|
  {
    if a == [] {
      assert a + b == b;
    } else {
      assert (a + b)[1..] == a[1..] + b;
      MergeConcat(candidate, MergeOne(candidate, entries, a[0]).value, a[1..], b);
    }
  }

  // ---------------------------------------------------------------- confluence

  lemma {:induction false} SameMembersSameMultiset(a: seq<Entry>, b: seq<Entry>)
    requires UniqueIds(a) && UniqueIds(b) && forall e :: e in a <==> e in b
    ensures multiset(a) == multiset(b)
  {
    forall e ensures multiset(a)[e] == multiset(b)[e] {
      OccursOnce(a, e);
      OccursOnce(b, e);
    }
  }

  lemma {:induction false} OccursOnce(a: seq<Entry>, e: Entry)
    requires UniqueIds(a)
    ensures multiset(a)[e] == if e in a then 1 else 0
  {
    if a != [] {
      assert a == [a[0]] + a[1..];
      OccursOnce(a[1..], e);
      assert forall k :: 0 <= k < |a[1..]| ==> a[1..][k].id != a[0].id;
    }
  }

  lemma SameEntriesSerializeAlike(a: seq<Entry>, b: seq<Entry>)
    requires UniqueIds(a) && UniqueIds(b) && forall e :: e in a <==> e in b
    ensures Serialized(a) == Serialized(b)
  {
    SameMembersSameMultiset(a, b);
    SortIgnoresOrder(a, b, EntryId);
  }

  /** If adding the same set of entries works in one order, it works in every order, with one serialized result. */
  lemma MergeIgnoresOrder(candidate: Option<string>, entries: seq<Entry>, p: seq<Entry>, q: seq<Entry>)
    requires UniqueIds(entries) && (forall e :: e in p <==> e in q) && Merge(candidate, entries, p).Ok?
    ensures Merge(candidate, entries, q).Ok?
    ensures Serialized(Merge(candidate, entries, q).value) == Serialized(Merge(candidate, entries, p).value)
  {
    MergeIff(candidate, entries, p);
    MergeIff(candidate, entries, q);
    assert forall e :: e in entries + p <==> e in entries + q;
    assert forall y :: CompatibleWithAll(y, entries + p) <==> CompatibleWithAll(y, entries + q);
    MergeContents(candidate, entries, p);
    MergeContents(candidate, entries, q);
    SameEntriesSerializeAlike(Merge(candidate, entries, q).value, Merge(candidate, entries, p).value);
  }

  /** A then B succeeds only if B then A does, and both write the same manifest. */
  lemma MergeConfluent(candidate: Option<string>, entries: seq<Entry>, a: seq<Entry>, b: seq<Entry>)
    requires UniqueIds(entries) && Merge(candidate, entries, a).Ok?
    requires Merge(candidate, Merge(candidate, entries, a).value, b).Ok?
    ensures Merge(candidate, entries, b).Ok?
    ensures Merge(candidate, Merge(candidate, entries, b).value, a).Ok?
    ensures Serialized(Merge(candidate, Merge(candidate, entries, b).value, a).value)
         == Serialized(Merge(candidate, Merge(candidate, entries, a).value, b).value)
  {
    MergeConcat(candidate, entries, a, b);
    MergeIgnoresOrder(candidate, entries, a + b, b + a);
    MergePrefix(candidate, entries, b, a);
    MergeConcat(candidate, entries, b, a);
  }

  lemma {:induction false} MergePrefix(candidate: Option<string>, entries: seq<Entry>, a: seq<Entry>, b: seq<Entry>)
    requires Merge(candidate, entries, a + b).Ok?
    ensures Merge(candidate, entries, a).Ok?
    decreases |a|
  {
    if a != [] {
      assert (a + b)[1..] == a[1..] + b;
      MergePrefix(candidate, MergeOne(candidate, entries, a[0]).value, a[1..], b);
    }
  }

  /** Merging again adds nothing. */
  lemma MergeIdempotent(candidate: Option<string>, entries: seq<Entry>, add: seq<Entry>)
    requires UniqueIds(entries) && Merge(candidate, entries, add).Ok?
    ensures Merge(candidate, Merge(candidate, entries, add).value, add) == Ok(Merge(candidate, entries, add).value)
  {
    MergeContents(candidate, entries, add);
    MergeIff(candidate, entries, add);
    MergeRecorded(candidate, Merge(candidate, entries, add).value, add);
  }

  lemma {:induction false} MergeRecorded(candidate: Option<string>, entries: seq<Entry>, add: seq<Entry>)
    requires UniqueIds(entries) && OnCandidate(candidate, add) && forall e :: e in add ==> e in entries
    ensures Merge(candidate, entries, add) == Ok(entries)
    decreases |add|
  {
    if add != [] {
      MergeOneIff(candidate, entries, add[0]);
      MergeRecorded(candidate, entries, add[1..]);
    }
  }

  /** A manifest is written in ascending order of ids, and holds what was merged. */
  lemma SerializedExact(entries: seq<Entry>)
    requires UniqueIds(entries)
    ensures multiset(Serialized(entries)) == multiset(entries)
    ensures forall i, j :: 0 <= i < j < |entries| ==>
      |Serialized(entries)| == |entries| && Below(Serialized(entries)[i].id, Serialized(entries)[j].id)
  {
    var s := Serialized(entries);
    SortSorted(entries, EntryId);
    PermutationLength(entries, s);
    UniquePermutation(entries, s);
    forall i, j | 0 <= i < j < |entries| ensures Below(s[i].id, s[j].id) {
      assert !Below(EntryId(s[j]), EntryId(s[i]));
      BelowTotal(s[i].id, s[j].id);
    }
  }

  lemma UniquePermutation(a: seq<Entry>, b: seq<Entry>)
    requires UniqueIds(a) && multiset(a) == multiset(b)
    ensures UniqueIds(b)
  {
    forall i, j | 0 <= i < j < |b| ensures b[i].id != b[j].id {
      assert b == b[..i] + [b[i]] + b[i + 1..] && b[j] in b[i + 1..];
      assert b[i] == b[j] ==> multiset(b)[b[i]] >= 2;
      OccursOnce(a, b[i]);
      assert b[i] in multiset(a) && b[j] in multiset(a);
    }
  }

  /** Why an entry is refused: another commit; its id belongs to a different entry; or its asset does. */
  lemma MergeOneRefuses(candidate: Option<string>, entries: seq<Entry>, e: Entry)
    requires UniqueIds(entries) && MergeOne(candidate, entries, e).Err?
    ensures match MergeOne(candidate, entries, e).error
      case WrongCommit(id) => id == e.id && candidate != Some(e.commit)
      case ConflictingEntry(id) =>
        candidate == Some(e.commit) && id == e.id && exists x :: x in entries && x.id == e.id && x != e
      case AssetRecorded(asset) =>
        && candidate == Some(e.commit) && asset == e.asset
        && (forall x :: x in entries ==> x.id != e.id) && exists x :: x in entries && x.asset == e.asset
  {
  }

  // ---------------------------------------------------------------- mergeEntries and importCommand

  /** The entries before `k` have been merged, and that one is refused. */
  ghost predicate StoppedAt(
    candidate: Option<string>, base: seq<Entry>, add: seq<Entry>, k: nat, now: seq<Entry>, error: MergeError) {
    && k < |add|
    && Merge(candidate, base, add[..k]) == Ok(now)
    && MergeOne(candidate, now, add[k]) == Err(error)
  }

  lemma MergeNext(candidate: Option<string>, base: seq<Entry>, add: seq<Entry>, i: nat, now: seq<Entry>)
    requires i < |add| && Merge(candidate, base, add[..i]) == Ok(now)
    ensures Merge(candidate, base, add[..i + 1]) == MergeOne(candidate, now, add[i])
    ensures MergeOne(candidate, now, add[i]).Ok? ==>
      Merge(candidate, now, add[i..]) == Merge(candidate, MergeOne(candidate, now, add[i]).value, add[i + 1..])
    ensures forall error :: MergeOne(candidate, now, add[i]) == Err(error) ==>
      Merge(candidate, now, add[i..]) == Err(error) && StoppedAt(candidate, base, add, i, now, error)
  {
    var one := [add[i]];
    assert add[..i] + one == add[..i + 1] && add[i..][1..] == add[i + 1..];
    MergeConcat(candidate, base, add[..i], one);
    assert one[1..] == [];
  }

  class ManifestFile {
    const repository: string
    const candidate: Option<string>
    const tag: Option<string>
    var entries: seq<Entry>

    constructor (repository: string, candidate: Option<string>, tag: Option<string>, entries: seq<Entry>)
      ensures this.repository == repository && this.candidate == candidate && this.tag == tag
      ensures this.entries == entries
    {
      this.repository, this.candidate, this.tag, this.entries := repository, candidate, tag, entries;
    }

    /** Pushes new entries one by one; a refusal leaves exactly the ones pushed before it. */
    method MergeEntries(add: seq<Entry>) returns (r: Result<nat, MergeError>)
      modifies this
      ensures old(entries) <= entries
      ensures r.Ok? ==> Merge(candidate, old(entries), add) == Ok(entries) && r.value == |entries| - |old(entries)|
      ensures r.Err? ==>
        && Merge(candidate, old(entries), add) == Err(r.error)
        && exists k :: StoppedAt(candidate, old(entries), add, k, entries, r.error)
    {
      var added := 0;
      for i := 0 to |add|
        invariant old(entries) <= entries && added == |entries| - |old(entries)|
        invariant Merge(candidate, old(entries), add) == Merge(candidate, entries, add[i..])
        invariant Merge(candidate, old(entries), add[..i]) == Ok(entries)
      {
        var e := add[i];
        MergeNext(candidate, old(entries), add, i, entries);
        if candidate != Some(e.commit) { return Err(WrongCommit(e.id)); }
        var existing := Find(entries, e.id);
        if existing.Some? {
          if existing.value == e { continue; }
          return Err(ConflictingEntry(e.id));
        }
        if HasAsset(entries, e.asset) { return Err(AssetRecorded(e.asset)); }
        entries := entries + [e];
        added := added + 1;
      }
      r := Ok(added);
    }
  }

  datatype Fragment = Fragment(repository: string, commit: string, tag: Option<string>, entries: seq<Entry>)

  datatype ImportError =
    | NoCandidate
    | NoFragments
    | WrongRepository
    | WrongFragmentCommit
    | WrongTag
    | Refused(cause: MergeError)

  predicate Accepts(repository: string, commit: string, tag: string, f: Fragment) {
    f.repository == repository && f.commit == commit && (f.tag.None? || f.tag.value == tag)
  }

  ghost function AllEntries(fragments: seq<Fragment>): (r: seq<Entry>) {
    if fragments == [] then [] else AllEntries(fragments[..|fragments| - 1]) + fragments[|fragments| - 1].entries
  }

  ghost predicate Importable(
    repository: string, commit: string, tag: string, entries: seq<Entry>, fragments: seq<Fragment>) {
    && (forall f :: f in fragments ==> Accepts(repository, commit, tag, f))
    && Mergeable(Some(commit), entries, AllEntries(fragments))
  }

  lemma {:induction false} AllEntriesMembers(fragments: seq<Fragment>, e: Entry)
    ensures e in AllEntries(fragments) <==> exists f :: f in fragments && e in f.entries
  {
    if fragments != [] {
      var before, last := fragments[..|fragments| - 1], fragments[|fragments| - 1];
      AllEntriesMembers(before, e);
      assert fragments == before + [last];
    }
  }

  /** The order of the fragments does not change what an import writes. */
  lemma ImportIgnoresOrder(commit: string, entries: seq<Entry>, a: seq<Fragment>, b: seq<Fragment>)
    requires UniqueIds(entries) && (forall f :: f in a <==> f in b)
    requires Merge(Some(commit), entries, AllEntries(a)).Ok?
    ensures Merge(Some(commit), entries, AllEntries(b)).Ok?
    ensures Serialized(Merge(Some(commit), entries, AllEntries(b)).value)
         == Serialized(Merge(Some(commit), entries, AllEntries(a)).value)
  {
    forall e ensures e in AllEntries(a) <==> e in AllEntries(b) {
      AllEntriesMembers(a, e);
      AllEntriesMembers(b, e);
    }
    MergeIgnoresOrder(Some(commit), entries, AllEntries(a), AllEntries(b));
  }

  lemma {:induction false} MergeFails(candidate: Option<string>, entries: seq<Entry>, a: seq<Entry>, b: seq<Entry>)
    requires Merge(candidate, entries, a).Err?
    ensures Merge(candidate, entries, a + b).Err?
    decreases |a|
  {
    assert (a + b)[1..] == a[1..] + b;
    if MergeOne(candidate, entries, a[0]).Ok? {
      MergeFails(candidate, MergeOne(candidate, entries, a[0]).value, a[1..], b);
    }
  }

  lemma {:induction false} AllEntriesPrefix(fragments: seq<Fragment>, i: nat) returns (rest: seq<Entry>)
    requires i <= |fragments|
    ensures AllEntries(fragments) == AllEntries(fragments[..i]) + rest
    decreases |fragments| - i
  {
    if i == |fragments| {
      assert fragments[..i] == fragments;
      rest := [];
    } else {
      rest := AllEntriesPrefix(fragments, i + 1);
      assert fragments[..i + 1][..i] == fragments[..i];
      rest := fragments[i].entries + rest;
    }
  }

  lemma MergedSoFar(commit: string, base: seq<Entry>, fragments: seq<Fragment>, i: nat, now: seq<Entry>)
    requires UniqueIds(base) && i < |fragments|
    requires Merge(Some(commit), base, AllEntries(fragments[..i])) == Ok(now)
    ensures Merge(Some(commit), base, AllEntries(fragments[..i + 1])) == Merge(Some(commit), now, fragments[i].entries)
    ensures Merge(Some(commit), now, fragments[i].entries).Err? ==>
      !Mergeable(Some(commit), base, AllEntries(fragments))
  {
    assert fragments[..i + 1][..i] == fragments[..i];
    MergeConcat(Some(commit), base, AllEntries(fragments[..i]), fragments[i].entries);
    if Merge(Some(commit), now, fragments[i].entries).Err? {
      var rest := AllEntriesPrefix(fragments, i + 1);
      MergeFails(Some(commit), base, AllEntries(fragments[..i + 1]), rest);
      MergeIff(Some(commit), base, AllEntries(fragments));
    }
  }

  /** What keeps a fragment out. */
  ghost predicate Unfit(
    e: ImportError, repository: string, commit: string, tag: string, entries: seq<Entry>, f: Fragment) {
    match e
    case WrongRepository => f.repository != repository
    case WrongFragmentCommit => f.repository == repository && f.commit != commit
    case WrongTag => f.repository == repository && f.commit == commit && f.tag.Some? && f.tag.value != tag
    case Refused(cause) =>
      Accepts(repository, commit, tag, f) && Merge(Some(commit), entries, f.entries) == Err(cause)
    case _ => false
  }

  /** One fragment: refused as a whole, or merged. */
  method MergeFragment(
    file: ManifestFile, commit: string, tag: string, f: Fragment) returns (r: Result<nat, ImportError>)
    requires file.candidate == Some(commit)
    modifies file
    ensures r.Ok? <==> Accepts(file.repository, commit, tag, f) && Merge(Some(commit), old(file.entries), f.entries).Ok?
    ensures r.Ok? ==>
      && Merge(Some(commit), old(file.entries), f.entries) == Ok(file.entries)
      && r.value == |file.entries| - |old(file.entries)|
    ensures r.Err? ==> Unfit(r.error, file.repository, commit, tag, old(file.entries), f)
  {
    if f.repository != file.repository { return Err(WrongRepository); }
    if f.commit != commit { return Err(WrongFragmentCommit); }
    if f.tag.Some? && f.tag.value != tag { return Err(WrongTag); }
    var merged := file.MergeEntries(f.entries);
    if merged.Err? { return Err(Refused(merged.error)); }
    r := Ok(merged.value);
  }

  /** A fragment that cannot be taken in its turn spoils the import. */
  lemma NotImportable(
    repository: string, commit: string, tag: string, base: seq<Entry>, fragments: seq<Fragment>, i: nat,
    now: seq<Entry>)
    requires UniqueIds(base) && i < |fragments|
    requires Merge(Some(commit), base, AllEntries(fragments[..i])) == Ok(now)
    requires !(Accepts(repository, commit, tag, fragments[i]) && Merge(Some(commit), now, fragments[i].entries).Ok?)
    ensures !Importable(repository, commit, tag, base, fragments)
  {
    assert fragments[i] in fragments;
    MergedSoFar(commit, base, fragments, i, now);
  }

  /** The fragments before `i` have been taken. */
  ghost predicate Taken(
    repository: string, commit: string, tag: string, base: seq<Entry>, fragments: seq<Fragment>, now: seq<Entry>) {
    && (forall k :: 0 <= k < |fragments| ==> Accepts(repository, commit, tag, fragments[k]))
    && Merge(Some(commit), base, AllEntries(fragments)) == Ok(now)
  }

  lemma TakenNext(
    repository: string, commit: string, tag: string, base: seq<Entry>, fragments: seq<Fragment>, i: nat,
    now: seq<Entry>, next: seq<Entry>)
    requires UniqueIds(base) && i < |fragments| && Taken(repository, commit, tag, base, fragments[..i], now)
    requires Accepts(repository, commit, tag, fragments[i])
    requires Merge(Some(commit), now, fragments[i].entries) == Ok(next)
    ensures Taken(repository, commit, tag, base, fragments[..i + 1], next)
  {
    MergedSoFar(commit, base, fragments, i, now);
    assert fragments[..i + 1] == fragments[..i] + [fragments[i]];
  }

  lemma AllTaken(
    repository: string, commit: string, tag: string, base: seq<Entry>, fragments: seq<Fragment>, now: seq<Entry>)
    requires UniqueIds(base) && Taken(repository, commit, tag, base, fragments, now)
    ensures Importable(repository, commit, tag, base, fragments)
  {
    MergeIff(Some(commit), base, AllEntries(fragments));
  }

  /** Fragment `i` is the first that cannot be taken, for the reason given. */
  ghost predicate Blocked(
    e: ImportError, repository: string, commit: string, tag: string, base: seq<Entry>, fragments: seq<Fragment>,
    i: nat) {
    && i < |fragments|
    && exists now ::
         Taken(repository, commit, tag, base, fragments[..i], now)
         && Unfit(e, repository, commit, tag, now, fragments[i])
  }

  /** The import loop over the fragments, in memory. */
  method MergeFragments(file: ManifestFile, commit: string, tag: string, fragments: seq<Fragment>)
    returns (r: Result<nat, ImportError>)
    requires UniqueIds(file.entries) && file.candidate == Some(commit)
    modifies file
    ensures r.Ok? <==> Importable(file.repository, commit, tag, old(file.entries), fragments)
    ensures r.Ok? ==>
      && Merge(Some(commit), old(file.entries), AllEntries(fragments)) == Ok(file.entries)
      && r.value == |file.entries| - |old(file.entries)|
    ensures r.Err? ==> exists i :: Blocked(r.error, file.repository, commit, tag, old(file.entries), fragments, i)
  {
    var added := 0;
    ghost var base := file.entries;
    for i := 0 to |fragments|
      invariant Taken(file.repository, commit, tag, base, fragments[..i], file.entries)
      invariant added == |file.entries| - |base|
    {
      ghost var now := file.entries;
      var merged := MergeFragment(file, commit, tag, fragments[i]);
      if merged.Err? {
        NotImportable(file.repository, commit, tag, base, fragments, i, now);
        assert Blocked(merged.error, file.repository, commit, tag, base, fragments, i);
        return merged;
      }
      TakenNext(file.repository, commit, tag, base, fragments, i, now, file.entries);
      added := added + merged.value;
    }
    assert fragments[..|fragments|] == fragments;
    AllTaken(file.repository, commit, tag, base, fragments, file.entries);
    r := Ok(added);
  }

  /**
   `importCommand` on a loaded manifest: the file is rewritten only when every
   fragment was accepted, which is exactly when the import is possible.
   */
  method Import(file: ManifestFile, fragments: seq<Fragment>) returns (r: Result<nat, ImportError>, disk: seq<Entry>)
    requires UniqueIds(file.entries)
    modifies file
    ensures file.candidate.Some? && file.tag.Some? ==>
      (r.Ok? <==>
         fragments != []
         && Importable(file.repository, file.candidate.value, file.tag.value, old(file.entries), fragments))
    ensures file.candidate.None? || file.tag.None? ==> r == Err(NoCandidate)
    ensures r.Err? ==> disk == old(file.entries)
    ensures file.candidate.Some? && file.tag.Some? ==> (r == Err(NoFragments) <==> fragments == [])
    ensures file.candidate.Some? && file.tag.Some? && fragments != [] && r.Err? ==>
      exists i :: Blocked(
        r.error, file.repository, file.candidate.value, file.tag.value, old(file.entries), fragments, i)
    ensures r.Ok? ==>
      && Merge(file.candidate, old(file.entries), AllEntries(fragments)).Ok?
      && disk == Serialized(Merge(file.candidate, old(file.entries), AllEntries(fragments)).value)
      && r.value == |disk| - |old(file.entries)|
  {
    disk := file.entries;
    if file.candidate.None? || file.tag.None? { return Err(NoCandidate), disk; }
    if fragments == [] { return Err(NoFragments), disk; }
    r := MergeFragments(file, file.candidate.value, file.tag.value, fragments);
    if r.Ok? {
      disk := Serialized(file.entries);
      PermutationLength(disk, file.entries);
    }
  }
}
