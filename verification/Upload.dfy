/**
 Uploading evidence to a remote release whose exit codes prove nothing, reading it
 back, and withdrawing everything when the result cannot be verified.

 `Remote` is the adversary: an upload may attach any part of what it was given,
 with any bytes, and report anything; a call may fail, or take effect and lose its
 answer. An answer that does arrive about the release is true. `UploadCommand` and
 `ReconcileUpload` are proved against every such remote.
 */
module Upload {
  import opened Results
  import opened Sequences

  /** A staged file: its asset name and the digest of its validated bytes. */
  datatype File = File(name: string, sha256: string)

  datatype ReleaseView = ReleaseView(
    isPrerelease: bool,
    isImmutable: bool,
    isDraft: bool,
    assets: map<string, Option<string>>)

  datatype Request = ViewRelease | HashAsset(name: string) | ResolveTag | DeleteAsset(name: string)

  datatype Answer =
    | Viewed(release: Option<ReleaseView>)
    | Hash(sha256: string)
    | TagAt(commit: string)
    | Deleted
    | NotFound

  /** A release as it stands on the remote. */
  datatype Release = Release(
    exists_: bool,
    isPrerelease: bool,
    isImmutable: bool,
    isDraft: bool,
    assets: map<string, string>,
    tagCommit: string)

  predicate Attached(r: Release, name: string) { r.exists_ && name in r.assets }

  /** An empty pre-release on the same tag. */
  function Created(r: Release): Release { Release(true, true, false, false, map[], r.tagCommit) }

  /** Same release but for the assets named in `names`. */
  ghost predicate SameExcept(a: Release, b: Release, names: set<string>) {
    && b == a.(assets := b.assets)
    && forall n :: n !in names ==> (n in a.assets <==> n in b.assets) && (n in a.assets ==> a.assets[n] == b.assets[n])
  }

  ghost predicate TrueView(v: ReleaseView, r: Release) {
    && v.isPrerelease == r.isPrerelease && v.isImmutable == r.isImmutable && v.isDraft == r.isDraft
    && v.assets.Keys == r.assets.Keys
    && forall n :: n in v.assets && v.assets[n].Some? ==> v.assets[n].value == r.assets[n]
  }

  /** An answer given while the release went from `before` to `after`. */
  ghost predicate Truthful(req: Request, answer: Option<Answer>, before: Release, after: Release) {
    match req
    case ViewRelease =>
      && after == before
      && (answer.Some? ==> answer.value.Viewed? && (answer.value.release.Some? <==> before.exists_))
      && (answer.Some? && answer.value.release.Some? ==> TrueView(answer.value.release.value, before))
    case HashAsset(name) =>
      && after == before
      && (answer.Some? ==> answer.value.Hash? && Attached(before, name) && answer.value.sha256 == before.assets[name])
    case ResolveTag =>
      && after == before
      && (answer.Some? ==> answer.value == TagAt(before.tagCommit))
    case DeleteAsset(name) =>
      && SameExcept(before, after, {name})
      && (answer.Some? ==> (answer.value == Deleted || answer.value == NotFound) && !Attached(after, name))
      && (answer == Some(Deleted) ==> Attached(before, name))
      && (name in after.assets ==> after == before)
  }

  datatype Exchange = Exchange(request: Request, answer: Option<Answer>)

  /** Since `from`, one request has been made four times in a row without an answer. */
  ghost predicate GaveUp(log: seq<Exchange>, from: nat, req: Request) {
    exists i: nat :: from <= i && FourTimes(log, i, req)
  }

  ghost predicate FourTimes(log: seq<Exchange>, i: nat, req: Request) {
    i + 4 <= |log| && log[i..i + 4] == Repeat(4, Exchange(req, None))
  }

  lemma GaveUpStill(log: seq<Exchange>, more: seq<Exchange>, from: nat, since: nat, req: Request)
    requires GaveUp(log, from, req) && since <= from && log <= more
    ensures GaveUp(more, since, req)
  {
    var i: nat :| from <= i && FourTimes(log, i, req);
    assert more[i..i + 4] == log[i..i + 4];
    assert FourTimes(more, i, req);
  }

  class Remote {
    var release: Release
    ghost var calls: nat
    ghost var log: seq<Exchange>

    constructor (r: Release)
      ensures release == r && calls == 0 && log == []
    {
      release, calls, log := r, 0, [];
    }

    /** One remote call. `None` is an error or a lost answer; a lost delete may still have happened. */
    method Attempt(req: Request) returns (answer: Option<Answer>)
      modifies this
      ensures calls == old(calls) + 1 && log == old(log) + [Exchange(req, answer)]
      ensures Truthful(req, answer, old(release), release)
    {
      calls := calls + 1;
      var answers: bool := *;
      match req {
        case ViewRelease =>
          var hidden: set<string> := *;
          var assets := map n | n in release.assets :: if n in hidden then None else Some(release.assets[n]);
          var v := ReleaseView(release.isPrerelease, release.isImmutable, release.isDraft, assets);
          answer := if !answers then None else if release.exists_ then Some(Viewed(Some(v))) else Some(Viewed(None));
        case HashAsset(name) =>
          answer := if answers && Attached(release, name) then Some(Hash(release.assets[name])) else None;
        case ResolveTag =>
          answer := if answers then Some(TagAt(release.tagCommit)) else None;
        case DeleteAsset(name) =>
          if !Attached(release, name) {
            answer := if answers then Some(NotFound) else None;
          } else {
            var takesEffect: bool := *;
            if takesEffect {
              release := release.(assets := map n | n in release.assets && n != name :: release.assets[n]);
            }
            answer := if answers && takesEffect then Some(Deleted) else None;
          }
      }
      log := log + [Exchange(req, answer)];
    }

    /**
     `gh release upload`: any part of the files may land, with any bytes, and the
     release's flags and tag may change meanwhile. The exit status says nothing.
     */
    method UploadFiles(files: seq<File>) returns (reportedOk: bool)
      modifies this
      ensures calls == old(calls) + 1 && log == old(log)
      ensures forall n :: n !in Names(files) ==>
        (n in release.assets <==> n in old(release.assets))
        && (n in release.assets ==> release.assets[n] == old(release.assets[n]))
    {
      calls := calls + 1;
      var landed: set<string> := *;
      var digest: string -> string := *;
      var flags: Release := *;
      var fresh_ := map n | n in Names(files) && n in landed :: digest(n);
      release := flags.(assets := release.assets + fresh_);
      reportedOk := *;
    }

    /** `gh release create --prerelease --verify-tag`, which may also take effect and report failure. */
    method Create() returns (ok: bool)
      requires !release.exists_
      modifies this
      ensures calls == old(calls) + 1 && log == old(log)
      ensures release == old(release) || release == Created(old(release))
      ensures ok ==> release == Created(old(release))
      ensures ok ==>
        && release.exists_ && release.isPrerelease && !release.isImmutable && !release.isDraft
        && release.assets == map[] && release.tagCommit == old(release.tagCommit)
    {
      calls := calls + 1;
      ok := *;
      var takesEffect: bool := *;
      if ok || takesEffect { release := Created(release); }
    }
  }

  function Names(files: seq<File>): (r: set<string>) { set f | f in files :: f.name }

  // ---------------------------------------------------------------- withRetries

  /** At most four attempts; the first answer is returned and is true of the release as it now stands. */
  method WithRetries(remote: Remote, req: Request) returns (answer: Option<Answer>)
    modifies remote
    ensures old(remote.calls) < remote.calls <= old(remote.calls) + 4
    ensures answer.None? ==> remote.calls == old(remote.calls) + 4
    ensures old(remote.log) < remote.log
    ensures answer.None? ==> GaveUp(remote.log, |old(remote.log)|, req)
    ensures answer.Some? ==> remote.log[|remote.log| - 1] == Exchange(req, answer)
    ensures Truthful(req, answer, old(remote.release), remote.release)
  {
    answer := None;
    for i := 0 to 4
      invariant answer.None?
      invariant remote.log == old(remote.log) + Repeat(i, Exchange(req, None))
      invariant remote.calls == old(remote.calls) + i
      invariant Truthful(req, None, old(remote.release), remote.release)
    {
      answer := remote.Attempt(req);
      if answer.Some? { return; }
      assert Repeat(i, Exchange(req, None)) + [Exchange(req, None)] == Repeat(i + 1, Exchange(req, None));
    }
    assert FourTimes(remote.log, |old(remote.log)|, req);
  }

  // ---------------------------------------------------------------- reading back

  /** The release holds `f` with its validated bytes. */
  ghost predicate Holds(r: Release, f: File) { f.name in r.assets && r.assets[f.name] == f.sha256 }

  /** The verified state reconciliation accepts. */
  ghost predicate Verified(r: Release, pending: seq<File>, tagCommit: string, wasDraft: bool) {
    && r.exists_ && r.isPrerelease && !r.isImmutable && r.isDraft == wasDraft
    && r.tagCommit == tagCommit
    && forall f :: f in pending ==> Holds(r, f)
  }

  datatype Problem =
    | UploadFailed
    | ReleaseGone
    | NoLongerPrerelease
    | BecameImmutable
    | DraftChanged
    | NotAttached(name: string)
    | OtherBytes(name: string)
    | TagMoved(commit: string)
    | Unreadable

  function If(condition: bool, p: Problem): (r: seq<Problem>) { if condition then [p] else [] }

  function FileProblems(r: Release, files: seq<File>): (ps: seq<Problem>)
    decreases |files|
  {
    if files == [] then [] else
      var f := files[|files| - 1];
      FileProblems(r, files[..|files| - 1]) +
        if f.name !in r.assets then [NotAttached(f.name)] else If(r.assets[f.name] != f.sha256, OtherBytes(f.name))
  }

  function FlagProblems(r: Release, wasDraft: bool): (ps: seq<Problem>) {
    If(!r.isPrerelease, NoLongerPrerelease) + If(r.isImmutable, BecameImmutable) +
    If(r.isDraft != wasDraft, DraftChanged)
  }

  function ReleaseProblems(r: Release, pending: seq<File>, wasDraft: bool): (ps: seq<Problem>) {
    if r.exists_ then FlagProblems(r, wasDraft) + FileProblems(r, pending) else [ReleaseGone]
  }

  /** What a completed read-back reports about a release, in order. */
  function ReadProblems(r: Release, pending: seq<File>, tagCommit: string, wasDraft: bool): (ps: seq<Problem>) {
    ReleaseProblems(r, pending, wasDraft) + If(r.tagCommit != tagCommit, TagMoved(r.tagCommit))
  }

  lemma {:induction false} FileProblemsExact(r: Release, files: seq<File>, p: Problem)
    ensures p in FileProblems(r, files) <==>
      exists f :: f in files && !Holds(r, f)
                  && p == if f.name in r.assets then OtherBytes(f.name) else NotAttached(f.name)
    decreases |files|
  {
    if files != [] {
      var init, f := files[..|files| - 1], files[|files| - 1];
      FileProblemsExact(r, init, p);
      assert files == init + [f];
    }
  }

  lemma FlagProblemsExact(r: Release, wasDraft: bool, p: Problem)
    ensures p in FlagProblems(r, wasDraft) <==>
      || (p == NoLongerPrerelease && !r.isPrerelease)
      || (p == BecameImmutable && r.isImmutable)
      || (p == DraftChanged && r.isDraft != wasDraft)
  {
  }

  /** The problem is there. */
  ghost predicate Occurs(r: Release, pending: seq<File>, tagCommit: string, wasDraft: bool, p: Problem) {
    match p
    case UploadFailed | Unreadable => false
    case ReleaseGone => !r.exists_
    case NoLongerPrerelease => r.exists_ && !r.isPrerelease
    case BecameImmutable => r.exists_ && r.isImmutable
    case DraftChanged => r.exists_ && r.isDraft != wasDraft
    case NotAttached(name) => r.exists_ && name !in r.assets && exists f :: f in pending && f.name == name
    case OtherBytes(name) =>
      r.exists_ && name in r.assets && exists f :: f in pending && f.name == name && f.sha256 != r.assets[name]
    case TagMoved(commit) => commit == r.tagCommit != tagCommit
  }

  lemma ReleaseProblemsExact(r: Release, pending: seq<File>, tagCommit: string, wasDraft: bool, p: Problem)
    requires !p.TagMoved?
    ensures p in ReleaseProblems(r, pending, wasDraft) <==> Occurs(r, pending, tagCommit, wasDraft, p)
  {
    FlagProblemsExact(r, wasDraft, p);
    FileProblemsExact(r, pending, p);
  }

  /** Each problem is reported if and only if it is there. */
  lemma ReadProblemsExact(r: Release, pending: seq<File>, tagCommit: string, wasDraft: bool, p: Problem)
    ensures p in ReadProblems(r, pending, tagCommit, wasDraft) <==> Occurs(r, pending, tagCommit, wasDraft, p)
  {
    if p.TagMoved? {
      FlagProblemsExact(r, wasDraft, p);
      FileProblemsExact(r, pending, p);
    } else {
      ReleaseProblemsExact(r, pending, tagCommit, wasDraft, p);
    }
  }

  /** The verified state is the one without problems. */
  lemma NoProblems(r: Release, pending: seq<File>, tagCommit: string, wasDraft: bool)
    ensures ReadProblems(r, pending, tagCommit, wasDraft) == [] <==> Verified(r, pending, tagCommit, wasDraft)
  {
    var ps := ReadProblems(r, pending, tagCommit, wasDraft);
    forall f | f in pending && r.exists_ ensures !Holds(r, f) ==> ps != [] {
      ReadProblemsExact(r, pending, tagCommit, wasDraft, NotAttached(f.name));
      ReadProblemsExact(r, pending, tagCommit, wasDraft, OtherBytes(f.name));
    }
    if ps != [] { ReadProblemsExact(r, pending, tagCommit, wasDraft, ps[0]); }
  }

  /** Reads one file back. `Err` means the read-back itself could not be completed. */
  method CheckFile(remote: Remote, view: ReleaseView, f: File) returns (r: Result<Option<Problem>, ()>)
    requires remote.release.exists_ && TrueView(view, remote.release)
    modifies remote
    ensures remote.release == old(remote.release)
    ensures old(remote.calls) <= remote.calls <= old(remote.calls) + 4
    ensures r.Err? ==> remote.calls == old(remote.calls) + 4
    ensures old(remote.log) <= remote.log
    ensures r.Err? ==> GaveUp(remote.log, |old(remote.log)|, HashAsset(f.name))
    ensures r.Ok? ==> (r.value.None? <==> Holds(remote.release, f))
    ensures r.Ok? && r.value.Some? ==>
      r.value.value == if f.name in remote.release.assets then OtherBytes(f.name) else NotAttached(f.name)
  {
    if f.name !in view.assets { return Ok(Some(NotAttached(f.name))); }
    var digest: string;
    if view.assets[f.name].Some? {
      digest := view.assets[f.name].value;
    } else {
      var hashed := WithRetries(remote, HashAsset(f.name));
      if hashed.None? { return Err(()); }
      digest := hashed.value.sha256;
    }
    return Ok(if digest != f.sha256 then Some(OtherBytes(f.name)) else None);
  }

  /** `problems` are those of a completed read-back, or some of the first and then that it was not. */
  ghost predicate ReadReport(all: seq<Problem>, problems: seq<Problem>) {
    || problems == all
    || (problems != [] && problems[|problems| - 1] == Unreadable && problems[..|problems| - 1] <= all)
  }

  lemma Interrupted(all: seq<Problem>, problems: seq<Problem>)
    requires problems <= all
    ensures ReadReport(all, problems + [Unreadable])
  {
    assert (problems + [Unreadable])[..|problems|] == problems;
  }

  lemma PrefixProblems(r: Release, files: seq<File>, i: nat)
    requires i <= |files|
    ensures FileProblems(r, files[..i]) <= FileProblems(r, files)
    decreases |files| - i
  {
    if i < |files| {
      assert files[..i + 1][..i] == files[..i];
      PrefixProblems(r, files, i + 1);
    } else {
      assert files[..i] == files;
    }
  }

  /** The files of a release that could be viewed, up to the first that cannot be read back. */
  method CheckFiles(remote: Remote, view: ReleaseView, pending: seq<File>)
    returns (problems: seq<Problem>, readable: bool)
    requires remote.release.exists_ && TrueView(view, remote.release)
    modifies remote
    ensures remote.release == old(remote.release)
    ensures old(remote.calls) <= remote.calls <= old(remote.calls) + 4 * |pending|
    ensures old(remote.log) <= remote.log
    ensures problems <= FileProblems(remote.release, pending)
    ensures readable ==> problems == FileProblems(remote.release, pending)
    ensures !readable ==> exists req :: GaveUp(remote.log, |old(remote.log)|, req)
  {
    problems := [];
    for i := 0 to |pending|
      invariant remote.release == old(remote.release)
      invariant old(remote.calls) <= remote.calls <= old(remote.calls) + 4 * i
      invariant old(remote.log) <= remote.log
      invariant problems == FileProblems(remote.release, pending[..i])
    {
      ghost var before := remote.log;
      var found := CheckFile(remote, view, pending[i]);
      if found.Err? {
        GaveUpStill(remote.log, remote.log, |before|, |old(remote.log)|, HashAsset(pending[i].name));
        PrefixProblems(remote.release, pending, i);
        return problems, false;
      }
      assert pending[..i + 1][..i] == pending[..i];
      if found.value.Some? { problems := problems + [found.value.value]; }
    }
    assert pending[..|pending|] == pending;
    readable := true;
  }

  method CheckFlags(view: ReleaseView, wasDraft: bool) returns (problems: seq<Problem>)
    ensures forall r :: TrueView(view, r) ==> problems == FlagProblems(r, wasDraft)
  {
    problems := [];
    if !view.isPrerelease { problems := problems + [NoLongerPrerelease]; }
    if view.isImmutable { problems := problems + [BecameImmutable]; }
    if view.isDraft != wasDraft { problems := problems + [DraftChanged]; }
  }

  method CheckRelease(remote: Remote, pending: seq<File>, wasDraft: bool)
    returns (problems: seq<Problem>, readable: bool)
    modifies remote
    ensures remote.release == old(remote.release)
    ensures old(remote.calls) <= remote.calls <= old(remote.calls) + 4 * (|pending| + 1)
    ensures old(remote.log) <= remote.log
    ensures problems <= ReleaseProblems(remote.release, pending, wasDraft)
    ensures readable ==> problems == ReleaseProblems(remote.release, pending, wasDraft)
    ensures !readable ==> exists req :: GaveUp(remote.log, |old(remote.log)|, req)
  {
    var viewed := WithRetries(remote, ViewRelease);
    if viewed.None? { return [], false; }
    if viewed.value.release.None? { return [ReleaseGone], true; }
    var view := viewed.value.release.value;
    var flags := CheckFlags(view, wasDraft);
    ghost var earlier := remote.log;
    var files, complete := CheckFiles(remote, view, pending);
    if !complete {
      ghost var req :| GaveUp(remote.log, |earlier|, req);
      GaveUpStill(remote.log, remote.log, |earlier|, |old(remote.log)|, req);
    }
    return flags + files, complete;
  }

  /**
   The read-back of `reconcileUpload`: the problems found, the last of which may
   be that it could not be completed.
   */
  method ReadBack(remote: Remote, pending: seq<File>, tagCommit: string, wasDraft: bool)
    returns (problems: seq<Problem>)
    modifies remote
    ensures remote.release == old(remote.release)
    ensures remote.calls <= old(remote.calls) + 4 * (|pending| + 2)
    ensures ReadReport(ReadProblems(remote.release, pending, tagCommit, wasDraft), problems)
    ensures old(remote.log) <= remote.log
    ensures Unreadable in problems ==> exists req :: GaveUp(remote.log, |old(remote.log)|, req)
  {
    ghost var all := ReadProblems(remote.release, pending, tagCommit, wasDraft);
    ReadProblemsExact(remote.release, pending, tagCommit, wasDraft, Unreadable);
    var readable;
    problems, readable := CheckRelease(remote, pending, wasDraft);
    if !readable {
      Interrupted(all, problems);
      return problems + [Unreadable];
    }
    ghost var before := remote.log;
    var tag := WithRetries(remote, ResolveTag);
    if tag.None? {
      GaveUpStill(remote.log, remote.log, |before|, |old(remote.log)|, ResolveTag);
      Interrupted(all, problems);
      return problems + [Unreadable];
    }
    if tag.value.commit != tagCommit { problems := problems + [TagMoved(tag.value.commit)]; }
  }

  // ---------------------------------------------------------------- withdrawing

  datatype Outcome = Complete | Withdrawn(withdrawn: seq<string>, absent: seq<string>, stranded: seq<string>)

  function FileNames(files: seq<File>): (r: seq<string>)
    ensures |r| == |files| && forall i :: 0 <= i < |files| ==> r[i] == files[i].name
  {
    seq(|files|, i requires 0 <= i < |files| => files[i].name)
  }

  lemma DeletedStep(a: Release, b: Release, c: Release, names: set<string>, name: string)
    requires SameExcept(a, b, names) && SameExcept(b, c, {name}) && name in names
    requires name in c.assets ==> c == b
    ensures SameExcept(a, c, names)
    ensures forall n :: Attached(c, n) ==> Attached(b, n)
  {
  }

  /** One pending name: deleted, found absent, or left as it is. */
  method WithdrawOne(remote: Remote, name: string) returns (answer: Option<Answer>)
    modifies remote
    ensures SameExcept(old(remote.release), remote.release, {name})
    ensures name in remote.release.assets ==> remote.release == old(remote.release)
    ensures answer.Some? ==> answer.value in {Deleted, NotFound} && !Attached(remote.release, name)
    ensures answer == Some(Deleted) ==> Attached(old(remote.release), name)
    ensures remote.calls <= old(remote.calls) + 4
    ensures old(remote.log) <= remote.log
    ensures answer.None? ==> GaveUp(remote.log, |old(remote.log)|, DeleteAsset(name))
  {
    answer := WithRetries(remote, DeleteAsset(name));
  }

  function Filed(o: Outcome, name: string, answer: Option<Answer>): (r: Outcome)
    requires o.Withdrawn?
    ensures r.Withdrawn?
  {
    match answer
    case Some(Deleted) => o.(withdrawn := o.withdrawn + [name])
    case Some(_) => o.(absent := o.absent + [name])
    case None => o.(stranded := o.stranded + [name])
  }

  ghost function AllFiled(o: Outcome): (r: multiset<string>)
    requires o.Withdrawn?
  {
    multiset(o.withdrawn) + multiset(o.absent) + multiset(o.stranded)
  }

  /** What the three lists promise about the names handled so far. */
  ghost predicate Accounts(o: Outcome, start: Release, r: Release, names: seq<string>) {
    && o.Withdrawn?
    && AllFiled(o) == multiset(names)
    && (forall n :: n in names && Attached(r, n) ==> n in o.stranded)
    && (forall n :: n in o.withdrawn || n in o.absent ==> !Attached(r, n))
    && (forall n :: n in o.withdrawn ==> Attached(start, n))
  }

  /** The name is in one of the three lists. */
  ghost predicate Accounted(o: Outcome, name: string) {
    o.Withdrawn? && (name in o.withdrawn || name in o.absent || name in o.stranded)
  }

  lemma AllAccounted(o: Outcome, start: Release, r: Release, names: seq<string>, name: string)
    requires Accounts(o, start, r, names) && name in names
    ensures Accounted(o, name)
  {
    assert name in multiset(names);
    assert name in AllFiled(o);
  }

  lemma AccountsNext(
    o: Outcome, start: Release, before: Release, after: Release, names: seq<string>, name: string,
    answer: Option<Answer>)
    requires Accounts(o, start, before, names)
    requires answer == Some(Deleted) ==> Attached(start, name)
    requires forall n :: Attached(after, n) ==> Attached(before, n)
    requires answer.Some? ==> !Attached(after, name)
    ensures Accounts(Filed(o, name, answer), start, after, names + [name])
  {
    var o' := Filed(o, name, answer);
    assert AllFiled(o') == AllFiled(o) + multiset{name};
  }

  /** Deletes every pending name and sorts the names by what happened to them. */
  method Withdraw(remote: Remote, pending: seq<File>) returns (o: Outcome)
    modifies remote
    ensures SameExcept(old(remote.release), remote.release, Names(pending))
    ensures remote.calls <= old(remote.calls) + 4 * |pending|
    ensures Accounts(o, old(remote.release), remote.release, FileNames(pending))
    ensures old(remote.log) <= remote.log
    ensures forall n :: n in o.stranded ==> GaveUp(remote.log, |old(remote.log)|, DeleteAsset(n))
  {
    o := Withdrawn([], [], []);
    ghost var start := remote.release;
    ghost var names := FileNames(pending);
    for i := 0 to |pending|
      invariant SameExcept(start, remote.release, Names(pending))
      invariant remote.calls <= old(remote.calls) + 4 * i
      invariant Accounts(o, start, remote.release, names[..i])
      invariant old(remote.log) <= remote.log
      invariant forall n :: n in o.stranded ==> GaveUp(remote.log, |old(remote.log)|, DeleteAsset(n))
      invariant forall n :: Attached(remote.release, n) ==> Attached(start, n)
    {
      var name := pending[i].name;
      assert name in Names(pending) by { assert pending[i] in pending; }
      assert names[..i + 1] == names[..i] + [name];
      ghost var before, earlier := remote.release, remote.log;
      var answer := WithdrawOne(remote, name);
      forall n | n in o.stranded ensures GaveUp(remote.log, |old(remote.log)|, DeleteAsset(n)) {
        GaveUpStill(earlier, remote.log, |old(remote.log)|, |old(remote.log)|, DeleteAsset(n));
      }
      if answer.None? {
        GaveUpStill(remote.log, remote.log, |earlier|, |old(remote.log)|, DeleteAsset(name));
      }
      DeletedStep(start, before, remote.release, Names(pending), name);
      AccountsNext(o, start, before, remote.release, names[..i], name, answer);
      o := Filed(o, name, answer);
    }
    assert names[..|pending|] == names;
  }

  ghost predicate ReasonsFrom(all: seq<Problem>, uploadFailed: bool, read: seq<Problem>, problems: seq<Problem>) {
    problems == If(uploadFailed, UploadFailed) + read && ReadReport(all, read)
  }

  /** The problems given: the failed upload, and then those of the read-back. */
  ghost predicate Reasons(
    r: Release, pending: seq<File>, tagCommit: string, wasDraft: bool, uploadFailed: bool, problems: seq<Problem>) {
    exists read :: ReasonsFrom(ReadProblems(r, pending, tagCommit, wasDraft), uploadFailed, read, problems)
  }

  /**
   After any upload: either the verified state, or every pending name is
   accounted for and each one still attached is named as stranded. Assets
   outside the pending set are never touched, and a verified state that could
   be read is never withdrawn.
   */
  method ReconcileUpload(remote: Remote, pending: seq<File>, tagCommit: string, wasDraft: bool, uploadFailed: bool)
    returns (o: Outcome, problems: seq<Problem>)
    modifies remote
    ensures SameExcept(old(remote.release), remote.release, Names(pending))
    ensures remote.calls <= old(remote.calls) + 4 * (2 * |pending| + 2)
    ensures o.Complete? <==> problems == []
    ensures o.Complete? ==>
      && !uploadFailed
      && remote.release == old(remote.release)
      && Verified(remote.release, pending, tagCommit, wasDraft)
    ensures o.Withdrawn? ==> Accounts(o, old(remote.release), remote.release, FileNames(pending))
    ensures Reasons(old(remote.release), pending, tagCommit, wasDraft, uploadFailed, problems)
    ensures old(remote.log) <= remote.log
    ensures Unreadable in problems ==> exists req :: GaveUp(remote.log, |old(remote.log)|, req)
    ensures o.Withdrawn? ==>
      forall n :: n in o.stranded ==> GaveUp(remote.log, |old(remote.log)|, DeleteAsset(n))
  {
    ghost var all := ReadProblems(remote.release, pending, tagCommit, wasDraft);
    NoProblems(remote.release, pending, tagCommit, wasDraft);
    var read := ReadBack(remote, pending, tagCommit, wasDraft);
    problems := If(uploadFailed, UploadFailed) + read;
    assert ReasonsFrom(all, uploadFailed, read, problems);
    if problems == [] { return Complete, []; }
    ghost var before := remote.log;
    o := Withdraw(remote, pending);
    if Unreadable in problems {
      ghost var req :| GaveUp(before, |old(remote.log)|, req);
      GaveUpStill(before, remote.log, |old(remote.log)|, |old(remote.log)|, req);
    }
    forall n | n in o.stranded ensures GaveUp(remote.log, |old(remote.log)|, DeleteAsset(n)) {
      GaveUpStill(remote.log, remote.log, |before|, |old(remote.log)|, DeleteAsset(n));
    }
  }

  // ---------------------------------------------------------------- uploadCommand

  datatype UploadError =
    | TagUnresolved
    | WrongTag
    | ReleaseUnreadable
    | NoRelease
    | CreateFailed
    | NotPrerelease
    | Immutable
    | DifferentContent(name: string)
    | NotVerified(outcome: Outcome, problems: seq<Problem>)

  datatype Finished = DryRun | NothingToDo | Attached_(count: nat)

  /** The listed digest is another one; or there is none, and asking for the bytes gave another hash or nothing. */
  ghost predicate Differs(log: seq<Exchange>, view: Option<ReleaseView>, f: File) {
    && view.Some? && f.name in view.value.assets
    && match view.value.assets[f.name]
       case Some(digest) => digest != f.sha256
       case None =>
         && log != [] && log[|log| - 1].request == HashAsset(f.name)
         && log[|log| - 1].answer != Some(Hash(f.sha256))
  }

  /** The files that are not attached yet, in order. */
  ghost function Missing(r: Release, files: seq<File>): (m: seq<File>)
    decreases |files|
  {
    if files == [] then [] else
      var f := files[|files| - 1];
      Missing(r, files[..|files| - 1]) + if Attached(r, f.name) then [] else [f]
  }

  /** Splits the local files into those already attached with the same bytes and those still to send. */
  method SelectPending(
    remote: Remote, view: Option<ReleaseView>, local: seq<File>) returns (r: Result<seq<File>, UploadError>)
    requires view.Some? ==> remote.release.exists_ && TrueView(view.value, remote.release)
    requires view.None? ==> remote.release.assets == map[] || !remote.release.exists_
    modifies remote
    ensures remote.release == old(remote.release)
    ensures r.Ok? ==>
      && r.value == Missing(remote.release, local)
      && (forall f :: f in r.value ==> f in local)
      && (forall f :: f in r.value ==> !Attached(remote.release, f.name))
      && (forall f :: f in local && f !in r.value ==> Attached(remote.release, f.name) && Holds(remote.release, f))
    ensures old(remote.log) <= remote.log
    ensures r.Err? ==>
      && r.error.DifferentContent? && Attached(remote.release, r.error.name)
      && exists f :: f in local && f.name == r.error.name && Differs(remote.log, view, f)
    ensures (view.Some? ==> forall f :: f in local && f.name in view.value.assets ==>
      view.value.assets[f.name] == Some(f.sha256)) ==> r.Ok?
  {
    var pending: seq<File> := [];
    for i := 0 to |local|
      invariant remote.release == old(remote.release) && old(remote.log) <= remote.log
      invariant pending == Missing(remote.release, local[..i])
      invariant forall f :: f in pending ==> f in local && !Attached(remote.release, f.name)
      invariant forall k :: 0 <= k < i && local[k] !in pending ==>
        Attached(remote.release, local[k].name) && Holds(remote.release, local[k])
    {
      var f := local[i];
      assert local[..i + 1][..i] == local[..i];
      if view.Some? && f.name in view.value.assets {
        var listed := view.value.assets[f.name];
        var same: bool;
        if listed.Some? {
          same := listed.value == f.sha256;
        } else {
          var hashed := remote.Attempt(HashAsset(f.name));
          same := hashed.Some? && hashed.value.sha256 == f.sha256;
        }
        if !same { return Err(DifferentContent(f.name)); }
      } else {
        pending := pending + [f];
      }
    }
    assert local[..|local|] == local;
    r := Ok(pending);
  }

  /** What lies behind each refusal. */
  ghost predicate Explained(
    e: UploadError, before: Release, remote: Remote, log: seq<Exchange>, local: seq<File>,
    boundCommit: Option<string>, createPrerelease: bool, execute: bool)
    reads remote
  {
    match e
    case TagUnresolved => remote.log == log + [Exchange(ResolveTag, None)]
    case WrongTag => boundCommit != Some(before.tagCommit)
    case ReleaseUnreadable => log < remote.log && remote.log[|remote.log| - 1] == Exchange(ViewRelease, None)
    case NoRelease => !before.exists_ && !createPrerelease
    case CreateFailed => !before.exists_ && createPrerelease && execute
    case NotPrerelease => before.exists_ && !before.isPrerelease
    case Immutable => before.exists_ && before.isPrerelease && before.isImmutable
    case DifferentContent(name) =>
      Attached(before, name) && exists f, view :: f in local && f.name == name && Differs(remote.log, view, f)
    case NotVerified(outcome, problems) => execute && outcome.Withdrawn? && problems != []
  }

  /** What an upload reported, and the release it left. */
  datatype Sent = Sent(reportedOk: bool, after: Release)

  lemma {:induction false} MissingAlike(r: Release, r': Release, files: seq<File>)
    requires forall n :: Attached(r, n) <==> Attached(r', n)
    ensures Missing(r, files) == Missing(r', files)
    decreases |files|
  {
    if files != [] { MissingAlike(r, r', files[..|files| - 1]); }
  }

  /** The files to send, with the commit of the tag and whether the release was a draft. */
  datatype Prepared = Prepared(pending: seq<File>, tagCommit: string, wasDraft: bool)

  /** Everything before the upload: at most an empty pre-release is created. */
  method Prepare(
    remote: Remote, local: seq<File>, boundCommit: Option<string>, createPrerelease: bool, execute: bool)
    returns (r: Result<Prepared, UploadError>)
    modifies remote
    ensures
      || remote.release == old(remote.release)
      || (!old(remote.release).exists_ && createPrerelease && execute && remote.release == Created(old(remote.release)))
    ensures old(remote.log) <= remote.log
    ensures r.Err? ==>
      && !r.error.NotVerified?
      && Explained(r.error, old(remote.release), remote, old(remote.log), local, boundCommit, createPrerelease, execute)
    ensures r.Ok? ==>
      && boundCommit == Some(r.value.tagCommit) && r.value.tagCommit == remote.release.tagCommit
      && (r.value.wasDraft <==> old(remote.release.exists_ && remote.release.isDraft))
      && r.value.pending == Missing(old(remote.release), local)
      && (execute ==> remote.release.exists_ && remote.release.isPrerelease && !remote.release.isImmutable)
      && (forall f :: f in r.value.pending ==> f in local && !Attached(old(remote.release), f.name))
      && (forall f :: f in local && f !in r.value.pending ==>
            Attached(old(remote.release), f.name) && Holds(remote.release, f))
  {
    var tag := remote.Attempt(ResolveTag);
    if tag.None? { return Err(TagUnresolved); }
    if boundCommit != Some(tag.value.commit) { return Err(WrongTag); }
    var viewed := remote.Attempt(ViewRelease);
    if viewed.None? { return Err(ReleaseUnreadable); }
    var view := viewed.value.release;
    if view.None? {
      if !createPrerelease { return Err(NoRelease); }
      if execute {
        var created := remote.Create();
        if !created { return Err(CreateFailed); }
      }
    } else {
      if !view.value.isPrerelease { return Err(NotPrerelease); }
      if view.value.isImmutable { return Err(Immutable); }
    }
    MissingAlike(old(remote.release), remote.release, local);
    var selected := SelectPending(remote, view, local);
    if selected.Err? { return Err(selected.error); }
    return Ok(Prepared(selected.value, tag.value.commit, view.Some? && view.value.isDraft));
  }

  /** Sends the pending files and reconciles. */
  method Send(remote: Remote, p: Prepared) returns (o: Outcome, problems: seq<Problem>, ghost sent: Sent)
    modifies remote
    ensures forall n :: n !in Names(p.pending) ==>
      (n in remote.release.assets <==> n in old(remote.release.assets))
      && (n in remote.release.assets ==> remote.release.assets[n] == old(remote.release.assets[n]))
    ensures o.Complete? <==> problems == []
    ensures o.Complete? ==>
      sent == Sent(true, remote.release) && Verified(remote.release, p.pending, p.tagCommit, p.wasDraft)
    ensures o.Withdrawn? ==> Accounts(o, sent.after, remote.release, FileNames(p.pending))
    ensures Reasons(sent.after, p.pending, p.tagCommit, p.wasDraft, !sent.reportedOk, problems)
    ensures Unreadable in problems ==> exists req :: GaveUp(remote.log, |old(remote.log)|, req)
  {
    var reported := remote.UploadFiles(p.pending);
    sent := Sent(reported, remote.release);
    o, problems := ReconcileUpload(remote, p.pending, p.tagCommit, p.wasDraft, !reported);
  }

  /**
   A normal return of an executed upload means that every local file is
   attached with its validated bytes and the tag is at the bound commit.
   */
  method UploadCommand(
    remote: Remote, local: seq<File>, boundCommit: Option<string>, createPrerelease: bool, execute: bool)
    returns (r: Result<Finished, UploadError>, ghost sent: Option<Sent>)
    modifies remote
    ensures r.Ok? && r.value != DryRun ==>
      && remote.release.exists_ && remote.release.isPrerelease && !remote.release.isImmutable
      && boundCommit == Some(remote.release.tagCommit)
      && forall f :: f in local ==> Holds(remote.release, f)
    ensures r.Ok? ==> match r.value
      case DryRun => true
      case NothingToDo => Missing(old(remote.release), local) == []
      case Attached_(count) =>
        count == |Missing(old(remote.release), local)| > 0 && sent == Some(Sent(true, remote.release))
    ensures r.Err? && r.error.NotVerified? ==>
      && sent.Some? && boundCommit.Some?
      && Reasons(sent.value.after, Missing(old(remote.release), local), boundCommit.value,
                 old(remote.release.exists_ && remote.release.isDraft), !sent.value.reportedOk, r.error.problems)
      && (Unreadable in r.error.problems ==> exists req :: GaveUp(remote.log, |old(remote.log)|, req))
    ensures r.Err? && r.error.NotVerified? ==>
      && r.error.outcome.Withdrawn?
      && (forall f :: f in local && Attached(remote.release, f.name) ==>
            f.name in r.error.outcome.stranded || Attached(old(remote.release), f.name))
      && (forall f :: f in local && !Attached(old(remote.release), f.name) ==> Accounted(r.error.outcome, f.name))
    ensures r.Err? ==> Explained(r.error, old(remote.release), remote, old(remote.log), local, boundCommit,
                                 createPrerelease, execute)
    ensures r.Err? && !r.error.NotVerified? ==>
      || remote.release == old(remote.release)
      || (!old(remote.release).exists_ && createPrerelease && execute && remote.release == Created(old(remote.release)))
    ensures old(remote.release).exists_ ==> forall n :: n !in Names(local) ==>
      (n in remote.release.assets <==> n in old(remote.release.assets))
      && (n in remote.release.assets ==> remote.release.assets[n] == old(remote.release.assets[n]))
    ensures !execute ==> remote.release == old(remote.release) && (r.Ok? ==> r.value == DryRun)
    ensures execute && r.Ok? ==> r.value != DryRun
  {
    sent := None;
    var prepared := Prepare(remote, local, boundCommit, createPrerelease, execute);
    if prepared.Err? { return Err(prepared.error), None; }
    var p := prepared.value;
    if !execute { return Ok(DryRun), None; }
    if p.pending == [] { return Ok(NothingToDo), None; }
    assert forall n :: n in Names(p.pending) ==> n in Names(local);
    assert forall f :: f in p.pending ==> f.name in FileNames(p.pending);
    assert forall f :: f in local && f !in p.pending ==> f.name !in Names(p.pending);
    ghost var earlier := remote.log;
    var outcome, problems;
    ghost var left: Sent;
    outcome, problems, left := Send(remote, p);
    if outcome.Withdrawn? {
      forall f | f in p.pending ensures Accounted(outcome, f.name) {
        AllAccounted(outcome, left.after, remote.release, FileNames(p.pending), f.name);
      }
      if Unreadable in problems {
        ghost var req :| GaveUp(remote.log, |earlier|, req);
        GaveUpStill(remote.log, remote.log, |earlier|, |old(remote.log)|, req);
      }
      return Err(NotVerified(outcome, problems)), Some(left);
    }
    return Ok(Attached_(|p.pending|)), Some(left);
  }
}
