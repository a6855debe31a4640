/**
 Promotion: two files on disk, written one after the other by a program that may
 die between any two writes and is completed by running it again.

 A run is the list of atomic file writes it would make; an interrupted run makes
 a prefix of them. Everything below is about sequences of such runs.
 */
module Promotion {
  import opened Results
  import opened Sequences
  import opened Sorting
  import opened Tally

  datatype LockedAsset = LockedAsset(name: string, size: nat, sha256: string)

  function AssetName(a: LockedAsset): string { a.name }

  datatype Lock = Lock(tag: string, tagCommit: string, verifiedAt: nat, assets: seq<LockedAsset>)

  datatype Candidate = Candidate(commit: string, tag: string)

  datatype Readiness = Pending | Ready

  /** The manifest file (candidate, lock) and the status file (commit, readiness). */
  datatype Disk = Disk(
    candidate: Option<Candidate>,
    lock: Option<Lock>,
    statusCommit: Option<string>,
    readiness: Readiness)

  datatype Download = Download(size: nat, sha256: string)

  /**
   What one verification sees: the asset names the release lists, the evidence
   assets among them that downloaded, the commit its tag resolves to, and the
   problems found by the checks that do not involve the lock.
   */
  datatype World = World(
    listed: seq<string>,
    downloads: map<string, Download>,
    tagCommit: Option<string>,
    problems: seq<string>,
    now: nat)

  // ---------------------------------------------------------------- verification

  /** The hashed evidence assets, in the order the release lists them. */
  function Hashed(listed: seq<string>, downloads: map<string, Download>): (r: seq<LockedAsset>) {
    if listed == [] then []
    else
      var rest := Hashed(listed[1..], downloads);
      if listed[0] in downloads
      then [LockedAsset(listed[0], downloads[listed[0]].size, downloads[listed[0]].sha256)] + rest
      else rest
  }

  function ReleaseAssets(w: World): (r: seq<LockedAsset>) { Sort(Hashed(w.listed, w.downloads), AssetName) }

  /** The listed asset `a.name` downloaded, with that size and hash. */
  ghost predicate Downloaded(w: World, a: LockedAsset) {
    && a.name in w.listed && a.name in w.downloads
    && a.size == w.downloads[a.name].size && a.sha256 == w.downloads[a.name].sha256
  }

  ghost function HasDownload(downloads: map<string, Download>): (p: string -> bool) { name => name in downloads }

  /** The assets of a release are the listed ones that downloaded, each once per listing, in name order. */
  lemma ReleaseAssetsExact(w: World)
    ensures forall a :: a in ReleaseAssets(w) <==> Downloaded(w, a)
    ensures |ReleaseAssets(w)| == NumberOf(w.listed, HasDownload(w.downloads))
    ensures SortedBy(ReleaseAssets(w), AssetName)
  {
    var hashed := Hashed(w.listed, w.downloads);
    SortSorted(hashed, AssetName);
    HashedNumber(w.listed, w.downloads);
    PermutationLength(hashed, ReleaseAssets(w));
    forall a ensures a in ReleaseAssets(w) <==> Downloaded(w, a) {
      HashedExact(w.listed, w.downloads, a);
      assert a in multiset(hashed) <==> a in multiset(ReleaseAssets(w));
    }
  }

  lemma {:induction false} HashedExact(listed: seq<string>, downloads: map<string, Download>, a: LockedAsset)
    ensures a in Hashed(listed, downloads) <==>
      && a.name in listed && a.name in downloads
      && a == LockedAsset(a.name, downloads[a.name].size, downloads[a.name].sha256)
  {
    if listed != [] {
      HashedExact(listed[1..], downloads, a);
      assert listed == [listed[0]] + listed[1..];
    }
  }

  lemma {:induction false} HashedNumber(listed: seq<string>, downloads: map<string, Download>)
    ensures |Hashed(listed, downloads)| == NumberOf(listed, HasDownload(downloads))
  {
    if listed == [] {
      NumberOfExact(listed, HasDownload(downloads));
    } else {
      HashedNumber(listed[1..], downloads);
      assert listed == [listed[0]] + listed[1..];
      NumberOfHead(listed, HasDownload(downloads));
    }
  }

  datatype Failure =
    | Problem(text: string)
    | StatusNamesOtherCandidate
    | ReadinessNotReady
    | NoPromotionLock
    | TagMoved
    | AssetsChanged
    | PromotedButNotReady
    | ReadyButNotPromoted

  /** The lock part of `verifyRelease`. */
  function LockFailures(d: Disk, w: World, requireReady: bool): (r: seq<Failure>) {
    ReadyFailures(d, requireReady) + HeldFailures(d, w.tagCommit, ReleaseAssets(w))
  }

  function ReadyFailures(d: Disk, requireReady: bool): (r: seq<Failure>) {
    (if requireReady && d.readiness != Ready then [ReadinessNotReady] else [])
    + (if requireReady && d.lock.None? then [NoPromotionLock] else [])
  }

  function HeldFailures(d: Disk, tagCommit: Option<string>, assets: seq<LockedAsset>): (r: seq<Failure>) {
    match d.lock
    case Some(lock) =>
      (if tagCommit.Some? && lock.tagCommit != tagCommit.value then [TagMoved] else [])
      + (if lock.assets != assets then [AssetsChanged] else [])
      + (if d.readiness != Ready then [PromotedButNotReady] else [])
    case None => if d.readiness == Ready then [ReadyButNotPromoted] else []
  }

  function Problems(problems: seq<string>): (r: seq<Failure>) {
    seq(|problems|, i requires 0 <= i < |problems| => Problem(problems[i]))
  }

  function Failures(d: Disk, w: World, requireReady: bool): (r: seq<Failure>) {
    Problems(w.problems)
    + (if d.candidate.Some? && d.statusCommit == Some(d.candidate.value.commit) then []
       else [StatusNamesOtherCandidate])
    + LockFailures(d, w, requireReady)
  }

  /** What each failure means. */
  ghost predicate Causes(d: Disk, w: World, requireReady: bool, f: Failure) {
    match f
    case Problem(text) => text in w.problems
    case StatusNamesOtherCandidate => d.candidate.None? || d.statusCommit != Some(d.candidate.value.commit)
    case ReadinessNotReady => requireReady && d.readiness == Pending
    case NoPromotionLock => requireReady && d.lock.None?
    case TagMoved => d.lock.Some? && w.tagCommit.Some? && d.lock.value.tagCommit != w.tagCommit.value
    case AssetsChanged => d.lock.Some? && d.lock.value.assets != ReleaseAssets(w)
    case PromotedButNotReady => d.lock.Some? && d.readiness == Pending
    case ReadyButNotPromoted => d.lock.None? && d.readiness == Ready
  }

  lemma ProblemsExact(problems: seq<string>, f: Failure)
    ensures f in Problems(problems) <==> f.Problem? && f.text in problems
  {
    if f.Problem? && f.text in problems {
      var i :| 0 <= i < |problems| && problems[i] == f.text;
      assert Problems(problems)[i] == f;
    }
  }

  lemma ReadyFailuresExact(d: Disk, requireReady: bool, f: Failure)
    ensures f in ReadyFailures(d, requireReady) <==>
      requireReady && ((f == ReadinessNotReady && d.readiness == Pending) || (f == NoPromotionLock && d.lock.None?))
  {
  }

  lemma HeldFailuresExact(d: Disk, tagCommit: Option<string>, assets: seq<LockedAsset>, f: Failure)
    ensures f in HeldFailures(d, tagCommit, assets) <==>
      match f
      case TagMoved => d.lock.Some? && tagCommit.Some? && d.lock.value.tagCommit != tagCommit.value
      case AssetsChanged => d.lock.Some? && d.lock.value.assets != assets
      case PromotedButNotReady => d.lock.Some? && d.readiness == Pending
      case ReadyButNotPromoted => d.lock.None? && d.readiness == Ready
      case _ => false
  {
  }

  /** Verification reports exactly what has a cause. */
  lemma FailuresExact(d: Disk, w: World, requireReady: bool, f: Failure)
    ensures f in Failures(d, w, requireReady) <==> Causes(d, w, requireReady, f)
  {
    ProblemsExact(w.problems, f);
    ReadyFailuresExact(d, requireReady, f);
    HeldFailuresExact(d, w.tagCommit, ReleaseAssets(w), f);
    var status := if Causes(d, w, requireReady, StatusNamesOtherCandidate) then [StatusNamesOtherCandidate] else [];
    assert Failures(d, w, requireReady) == Problems(w.problems) + status + LockFailures(d, w, requireReady);
  }

  predicate HalfWritten(f: Failure) { f == PromotedButNotReady || f == ReadyButNotPromoted }

  /** The failures promotion does not put down to an earlier interruption. */
  function Refusing(failures: seq<Failure>): (r: seq<Failure>) {
    if failures == [] then []
    else (if HalfWritten(failures[0]) then [] else [failures[0]]) + Refusing(failures[1..])
  }

  lemma {:induction false} RefusingExact(failures: seq<Failure>, f: Failure)
    ensures f in Refusing(failures) <==> f in failures && f != PromotedButNotReady && f != ReadyButNotPromoted
  {
    if failures != [] { RefusingExact(failures[1..], f); }
  }

  // ---------------------------------------------------------------- a run as its writes

  datatype Write = WriteManifest(candidate: Option<Candidate>, lock: Option<Lock>)
                 | WriteStatus(commit: string, readiness: Readiness)

  function Apply(d: Disk, w: Write): (r: Disk) {
    match w
    case WriteManifest(candidate, lock) => d.(candidate := candidate, lock := lock)
    case WriteStatus(commit, readiness) => d.(statusCommit := Some(commit), readiness := readiness)
  }

  /** The first `k` writes of a list, or all of them. */
  function ApplySome(d: Disk, ws: seq<Write>, k: nat): (r: Disk)
    decreases |ws|
  {
    if ws == [] || k == 0 then d else ApplySome(Apply(d, ws[0]), ws[1..], k - 1)
  }

  /** `writeManifest` refuses a lock that lists nothing or an empty asset. */
  predicate Writable(lock: Lock) {
    lock.assets != [] && forall i :: 0 <= i < |lock.assets| ==> lock.assets[i].size > 0
  }

  /** The manifest is one that `loadManifest` accepts: its lock, if any, is the candidate's. */
  predicate Loads(d: Disk) {
    d.lock.Some? ==>
      && d.candidate.Some?
      && d.lock.value.tag == d.candidate.value.tag
      && d.lock.value.tagCommit == d.candidate.value.commit
      && Writable(d.lock.value)
  }

  function NewLock(c: Candidate, w: World): (l: Lock) { Lock(c.tag, c.commit, w.now, ReleaseAssets(w)) }

  /** The lock a promotion ends with. */
  function LockOf(d: Disk, w: World): (l: Lock)
    requires d.candidate.Some?
  {
    if d.lock.Some? then d.lock.value else NewLock(d.candidate.value, w)
  }

  /** The run gets as far as writing. */
  predicate Proceeds(d: Disk, w: World, dryRun: bool) {
    && Loads(d)
    && d.candidate.Some? && Refusing(Failures(d, w, false)) == []
    && !(d.lock.Some? && d.readiness == Ready)
    && !dryRun
    && (d.lock.Some? || Writable(LockOf(d, w)))
  }

  /** What it then writes. */
  function Steps(d: Disk, lock: Lock, docsPass: bool): (ws: seq<Write>)
    requires d.candidate.Some?
  {
    var commit := d.candidate.value.commit;
    (if d.lock.None? then [WriteManifest(d.candidate, Some(lock))] else [])
    + [WriteStatus(commit, Ready)]
    + (if docsPass then [] else [WriteManifest(d.candidate, None), WriteStatus(commit, Pending)])
  }

  /** The writes of one promotion run. `docsPass` is the outcome of the documentation check, if it runs. */
  function PromoteWrites(d: Disk, w: World, dryRun: bool, docsPass: bool): (ws: seq<Write>) {
    if Proceeds(d, w, dryRun) then Steps(d, LockOf(d, w), docsPass) else []
  }

  /** The writes of `release-evidence.ts bind`. */
  function BindWrites(d: Disk, c: Candidate): (ws: seq<Write>) {
    if Loads(d) then [WriteManifest(Some(c), None), WriteStatus(c.commit, Pending)] else []
  }

  datatype Run =
    | Promote(world: World, dryRun: bool, docsPass: bool, crashAfter: nat)
    | Bind(candidate: Candidate, crashAfter: nat)

  function Writes(d: Disk, r: Run): (ws: seq<Write>) {
    match r
    case Promote(world, dryRun, docsPass, _) => PromoteWrites(d, world, dryRun, docsPass)
    case Bind(candidate, _) => BindWrites(d, candidate)
  }

  /** A run that dies after `crashAfter` writes, if it has that many. */
  function Execute(d: Disk, r: Run): (d': Disk) { ApplySome(d, Writes(d, r), r.crashAfter) }

  function ExecuteAll(d: Disk, runs: seq<Run>): (d': Disk)
    decreases |runs|
  {
    if runs == [] then d else ExecuteAll(Execute(d, runs[0]), runs[1..])
  }

  ghost predicate Consistent(d: Disk) { d.readiness == Ready ==> d.lock.Some? }

  /** A run that never takes a lock away: no bind, and no failed documentation check. */
  ghost predicate KeepsLocks(r: Run) { r.Promote? && r.docsPass }

  // ---------------------------------------------------------------- safety over all sequences of runs

  lemma ExecuteKeeps(d: Disk, r: Run)
    requires KeepsLocks(r)
    ensures Consistent(d) ==> Consistent(Execute(d, r))
    ensures d.lock.Some? ==> Execute(d, r).lock == d.lock
    ensures Execute(d, r).candidate == d.candidate
  {
    if Proceeds(d, r.world, r.dryRun) { StepsKeep(d, LockOf(d, r.world), r.crashAfter); }
  }

  lemma StepsKeep(d: Disk, lock: Lock, k: nat)
    requires d.candidate.Some?
    ensures var d' := ApplySome(d, Steps(d, lock, true), k);
      (Consistent(d) ==> Consistent(d')) && (d.lock.Some? ==> d'.lock == d.lock) && d'.candidate == d.candidate
  {
    Unroll(d, Steps(d, lock, true), k);
  }

  /** Among the prefixes of a run's writes, exactly one leaves a consistent disk inconsistent. */
  lemma StepsTear(d: Disk, lock: Lock, docsPass: bool, k: nat)
    requires d.candidate.Some? && Consistent(d)
    ensures Consistent(ApplySome(d, Steps(d, lock, docsPass), k))
      <==> docsPass || k != if d.lock.Some? then 2 else 3
  {
    Unroll(d, Steps(d, lock, docsPass), k);
  }

  /** Up to four writes, written out. */
  lemma Unroll(d: Disk, ws: seq<Write>, k: nat)
    requires |ws| <= 4
    ensures k == 0 || |ws| == 0 ==> ApplySome(d, ws, k) == d
    ensures (k == 1 && |ws| >= 1) || (k >= 1 && |ws| == 1) ==> ApplySome(d, ws, k) == Apply(d, ws[0])
    ensures (k == 2 && |ws| >= 2) || (k >= 2 && |ws| == 2) ==> ApplySome(d, ws, k) == Apply(Apply(d, ws[0]), ws[1])
    ensures (k == 3 && |ws| >= 3) || (k >= 3 && |ws| == 3) ==>
      ApplySome(d, ws, k) == Apply(Apply(Apply(d, ws[0]), ws[1]), ws[2])
    ensures k >= 4 && |ws| == 4 ==>
      ApplySome(d, ws, k) == Apply(Apply(Apply(Apply(d, ws[0]), ws[1]), ws[2]), ws[3])
  {
    if k > 0 && |ws| > 0 { UnrollOne(Apply(d, ws[0]), ws[1..], k - 1); }
  }

  lemma UnrollOne(d: Disk, ws: seq<Write>, k: nat)
    requires |ws| <= 3
    ensures k == 0 || |ws| == 0 ==> ApplySome(d, ws, k) == d
    ensures (k == 1 && |ws| >= 1) || (k >= 1 && |ws| == 1) ==> ApplySome(d, ws, k) == Apply(d, ws[0])
    ensures (k == 2 && |ws| >= 2) || (k >= 2 && |ws| == 2) ==> ApplySome(d, ws, k) == Apply(Apply(d, ws[0]), ws[1])
    ensures k >= 3 && |ws| == 3 ==> ApplySome(d, ws, k) == Apply(Apply(Apply(d, ws[0]), ws[1]), ws[2])
  {
    if k > 0 && |ws| > 0 {
      var d1, t := Apply(d, ws[0]), ws[1..];
      assert ApplySome(d, ws, k) == ApplySome(d1, t, k - 1);
      if k > 1 && |t| > 0 {
        var d2, u := Apply(d1, t[0]), t[1..];
        assert ApplySome(d1, t, k - 1) == ApplySome(d2, u, k - 2);
        if k > 2 && |u| > 0 { assert ApplySome(d2, u, k - 2) == ApplySome(Apply(d2, u[0]), u[1..], k - 3); }
      }
    }
  }

  /**
   Whatever the interruptions, `ready` on disk implies a lock on disk and a
   recorded lock is never rewritten, as long as no run takes locks away.
   */
  lemma {:induction false} LocksSurvive(d: Disk, runs: seq<Run>)
    requires forall r :: r in runs ==> KeepsLocks(r)
    ensures Consistent(d) ==> Consistent(ExecuteAll(d, runs))
    ensures d.lock.Some? ==> ExecuteAll(d, runs).lock == d.lock
    decreases |runs|
  {
    if runs != [] {
      ExecuteKeeps(d, runs[0]);
      LocksSurvive(Execute(d, runs[0]), runs[1..]);
    }
  }

  /** The run dies between clearing the lock and writing the status that goes with it. */
  ghost predicate Torn(d: Disk, r: Run) {
    match r
    case Bind(_, k) => Loads(d) && k == 1 && d.readiness == Ready
    case Promote(w, dryRun, docsPass, k) =>
      && Proceeds(d, w, dryRun)
      && !docsPass
      && k == if d.lock.Some? then 2 else 3
  }

  /** Exactly the torn runs leave a consistent disk ready without a lock. */
  lemma TornExactly(d: Disk, r: Run)
    requires Consistent(d)
    ensures Consistent(Execute(d, r)) <==> !Torn(d, r)
  {
    match r
    case Bind(c, k) => Unroll(d, BindWrites(d, c), k);
    case Promote(w, dryRun, docsPass, k) =>
      if Proceeds(d, w, dryRun) { StepsTear(d, LockOf(d, w), docsPass, k); }
  }

  /** Rebinding a promoted candidate, when it dies after its first write, leaves ready without a lock. */
  lemma TornBindExample(c: Candidate, next: Candidate, lock: Lock)
    requires Writable(lock) && lock.tag == c.tag && lock.tagCommit == c.commit
    ensures var d := Disk(Some(c), Some(lock), Some(c.commit), Ready);
      Loads(d) && Consistent(d) && !Consistent(Execute(d, Bind(next, 1)))
  {
    TornExactly(Disk(Some(c), Some(lock), Some(c.commit), Ready), Bind(next, 1));
  }

  /** So does the first promotion of a candidate whose revert dies after its first write. */
  lemma TornRevertExample(c: Candidate, w: World)
    requires w.problems == [] && ReleaseAssets(w) != [] && forall a :: a in ReleaseAssets(w) ==> a.size > 0
    ensures var d := Disk(Some(c), None, Some(c.commit), Pending);
      Verifies(d, w) && Consistent(d) && !Consistent(Execute(d, Promote(w, false, false, 3)))
  {
    var d := Disk(Some(c), None, Some(c.commit), Pending);
    VerifiedProceeds(d, w);
    TornExactly(d, Promote(w, false, false, 3));
  }

  // ---------------------------------------------------------------- every disk a run leaves can be loaded

  lemma StepsLoad(d: Disk, lock: Lock, docsPass: bool, k: nat)
    requires Loads(d) && d.candidate.Some?
    requires Loads(d.(lock := Some(lock)))
    ensures Loads(ApplySome(d, Steps(d, lock, docsPass), k))
  {
    Unroll(d, Steps(d, lock, docsPass), k);
  }

  lemma ExecuteLoads(d: Disk, r: Run)
    requires Loads(d)
    ensures Loads(Execute(d, r))
  {
    match r
    case Bind(c, k) => Unroll(d, BindWrites(d, c), k);
    case Promote(w, dryRun, docsPass, k) =>
      if Proceeds(d, w, dryRun) { StepsLoad(d, LockOf(d, w), docsPass, k); }
  }

  /**
   However the runs are interrupted, the manifest stays one that the next run
   accepts: its lock, if any, is the candidate's, lists something, and lists
   nothing empty.
   */
  lemma {:induction false} RunsLoad(d: Disk, runs: seq<Run>)
    requires Loads(d)
    ensures Loads(ExecuteAll(d, runs))
    ensures var e := ExecuteAll(d, runs);
      e.lock.Some? ==>
        && e.candidate == Some(Candidate(e.lock.value.tagCommit, e.lock.value.tag))
        && |e.lock.value.assets| > 0 && forall a :: a in e.lock.value.assets ==> a.size != 0
    decreases |runs|
  {
    if runs != [] {
      ExecuteLoads(d, runs[0]);
      RunsLoad(Execute(d, runs[0]), runs[1..]);
    }
  }

  // ---------------------------------------------------------------- completion

  /** Verification passes apart from what an interrupted promotion explains. */
  ghost predicate Verifies(d: Disk, w: World) {
    && Loads(d)
    && w.problems == []
    && d.candidate.Some?
    && d.statusCommit == Some(d.candidate.value.commit)
    && match d.lock
       case Some(lock) => (w.tagCommit.None? || lock.tagCommit == w.tagCommit.value) && lock.assets == ReleaseAssets(w)
       case None => ReleaseAssets(w) != [] && forall a :: a in ReleaseAssets(w) ==> a.size > 0
  }

  lemma VerifiesRefusesNothing(d: Disk, w: World)
    requires Verifies(d, w)
    ensures Refusing(Failures(d, w, false)) == []
  {
    var fs := Failures(d, w, false);
    assert Problems(w.problems) == [];
    assert |fs| <= 1 && forall i :: 0 <= i < |fs| ==> HalfWritten(fs[i]);
    assert |fs| == 1 ==> fs[1..] == [];
  }

  lemma VerifiedProceeds(d: Disk, w: World)
    requires Verifies(d, w)
    ensures Proceeds(d, w, false) <==> !(d.lock.Some? && d.readiness == Ready)
  {
    VerifiesRefusesNothing(d, w);
  }

  lemma StepsComplete(d: Disk, lock: Lock, k: nat)
    requires d.candidate.Some? && d.statusCommit == Some(d.candidate.value.commit) && k >= 2
    ensures ApplySome(d, Steps(d, lock, true), k) ==
      d.(lock := Some(if d.lock.Some? then d.lock.value else lock), readiness := Ready)
  {
    Unroll(d, Steps(d, lock, true), k);
  }

  lemma StepsRevert(d: Disk, lock: Lock, k: nat)
    requires d.candidate.Some? && d.statusCommit == Some(d.candidate.value.commit) && k >= 4
    ensures ApplySome(d, Steps(d, lock, false), k) == d.(lock := None, readiness := Pending)
  {
    Unroll(d, Steps(d, lock, false), k);
  }

  /**
   From each of the four lock and readiness states, one uninterrupted run that
   still verifies ends ready under a lock that describes the release: the one
   that was there, or a fresh one made out to the candidate. With the tag at the
   candidate, if it can be read, the release gate then passes. The next run
   writes nothing.
   */
  lemma PromotionCompletes(d: Disk, w: World, k: nat)
    requires Verifies(d, w) && k >= 2
    ensures var d' := Execute(d, Promote(w, false, true, k));
      && d'.lock.Some? && d'.readiness == Ready
      && d'.candidate == d.candidate && d'.statusCommit == d.statusCommit
      && (d.lock.Some? ==> d'.lock == d.lock)
      && d'.lock.value.assets == ReleaseAssets(w)
      && d'.lock.value.tag == d.candidate.value.tag && d'.lock.value.tagCommit == d.candidate.value.commit
      && (d.lock.None? ==> d'.lock.value.verifiedAt == w.now)
      && (w.tagCommit.None? || w.tagCommit == Some(d.candidate.value.commit) ==> LockFailures(d', w, true) == [])
      && forall w2, dryRun, docsPass :: PromoteWrites(d', w2, dryRun, docsPass) == []
  {
    VerifiedProceeds(d, w);
    StepsComplete(d, LockOf(d, w), k);
    PromotedStays(Execute(d, Promote(w, false, true, k)));
  }

  /** On a disk that is locked and ready no run writes anything. */
  lemma PromotedStays(d: Disk)
    requires d.lock.Some? && d.readiness == Ready
    ensures forall w, dryRun, docsPass :: PromoteWrites(d, w, dryRun, docsPass) == []
  {
  }

  /** An uninterrupted run whose documentation check fails ends with neither lock nor readiness. */
  lemma FailedDocsRevert(d: Disk, w: World, k: nat)
    requires Verifies(d, w) && !(d.lock.Some? && d.readiness == Ready) && k >= 4
    ensures var d' := Execute(d, Promote(w, false, false, k));
      d'.lock == None && d'.readiness == Pending && d'.candidate == d.candidate
  {
    VerifiedProceeds(d, w);
    StepsRevert(d, LockOf(d, w), k);
  }

  /** A promotion run refused by verification writes nothing. */
  lemma RefusedRunWritesNothing(d: Disk, w: World, dryRun: bool, docsPass: bool)
    requires !Loads(d) || w.problems != [] || (d.candidate.Some? && d.statusCommit != Some(d.candidate.value.commit))
      || (d.lock.Some? && d.lock.value.assets != ReleaseAssets(w))
      || (d.lock.Some? && w.tagCommit.Some? && d.lock.value.tagCommit != w.tagCommit.value)
    ensures PromoteWrites(d, w, dryRun, docsPass) == []
  {
  }

  /** Neither does a dry run, nor one that would lock an empty release or an empty asset. */
  lemma DryRunWritesNothing(d: Disk, w: World, dryRun: bool, docsPass: bool)
    requires dryRun || (d.lock.None? && (ReleaseAssets(w) == [] || exists a :: a in ReleaseAssets(w) && a.size == 0))
    ensures PromoteWrites(d, w, dryRun, docsPass) == []
  {
  }

  /** An uninterrupted bind starts the new candidate over. */
  lemma BindCompletes(d: Disk, c: Candidate, k: nat)
    requires Loads(d) && k >= 2
    ensures Execute(d, Bind(c, k)) == Disk(Some(c), None, Some(c.commit), Pending)
  {
    Unroll(d, BindWrites(d, c), k);
  }

  // ---------------------------------------------------------------- the GA gate

  /** `requireReady` passes exactly on a locked, ready disk whose lock still describes the release. */
  lemma RequireReadyExact(d: Disk, w: World)
    ensures LockFailures(d, w, true) == [] <==>
      && d.lock.Some?
      && d.readiness == Ready
      && (w.tagCommit.None? || d.lock.value.tagCommit == w.tagCommit.value)
      && d.lock.value.assets == ReleaseAssets(w)
  {
  }

  lemma {:induction false} HashedConcat(x: seq<string>, y: seq<string>, downloads: map<string, Download>)
    ensures Hashed(x + y, downloads) == Hashed(x, downloads) + Hashed(y, downloads)
  {
    if x == [] {
      assert x + y == y;
    } else {
      assert (x + y)[1..] == x[1..] + y;
      HashedConcat(x[1..], y, downloads);
    }
  }

  lemma HashedRemove(y: seq<string>, j: nat, downloads: map<string, Download>)
    requires j < |y|
    ensures multiset(Hashed(y, downloads))
         == multiset(Hashed([y[j]], downloads)) + multiset(Hashed(y[..j] + y[j + 1..], downloads))
  {
    assert y == y[..j] + ([y[j]] + y[j + 1..]);
    HashedConcat(y[..j], [y[j]] + y[j + 1..], downloads);
    HashedConcat([y[j]], y[j + 1..], downloads);
    HashedConcat(y[..j], y[j + 1..], downloads);
  }

  lemma {:induction false} HashedPermutation(x: seq<string>, y: seq<string>, downloads: map<string, Download>)
    requires multiset(x) == multiset(y)
    ensures multiset(Hashed(x, downloads)) == multiset(Hashed(y, downloads))
  {
    if x == [] {
      assert |multiset(y)| == 0;
    } else {
      assert x[0] in multiset(x);
      var j :| 0 <= j < |y| && y[j] == x[0];
      RemoveBoth(x, 0, y, j);
      assert x[..0] + x[1..] == x[1..];
      HashedPermutation(x[1..], y[..j] + y[j + 1..], downloads);
      HashedRemove(y, j, downloads);
      HashedRemove(x, 0, downloads);
    }
  }

  /** The gate does not depend on the order in which the release lists its assets. */
  lemma GateIgnoresListingOrder(d: Disk, w: World, listed: seq<string>, requireReady: bool)
    requires multiset(listed) == multiset(w.listed)
    ensures ReleaseAssets(w.(listed := listed)) == ReleaseAssets(w)
    ensures LockFailures(d, w.(listed := listed), requireReady) == LockFailures(d, w, requireReady)
  {
    var a, b := Hashed(listed, w.downloads), Hashed(w.listed, w.downloads);
    HashedPermutation(listed, w.listed, w.downloads);
    forall x, y | x in a && y in a && AssetName(x) == AssetName(y) ensures x == y {
      HashedExact(listed, w.downloads, x);
      HashedExact(listed, w.downloads, y);
    }
    SortIgnoresOrder(a, b, AssetName);
  }

  // ---------------------------------------------------------------- the program

  class Files {
    var disk: Disk

    constructor (d: Disk)
      ensures disk == d
    {
      disk := d;
    }

    /**
     `main` of the promotion script, dying before write number `crashAfter`.
     It reads both files once, edits them in memory and writes them back in order.
     */
    method PromoteOnce(w: World, dryRun: bool, docsPass: bool, crashAfter: nat)
      modifies this
      ensures disk == Execute(old(disk), Promote(w, dryRun, docsPass, crashAfter))
    {
      var manifest := disk;
      if !Loads(manifest) { return; }
      if manifest.candidate.None? { return; }
      var commit := manifest.candidate.value.commit;
      if Refusing(Failures(disk, w, false)) != [] { return; }
      var alreadyLocked := manifest.lock.Some?;
      var alreadyReady := manifest.readiness == Ready;
      if alreadyLocked && alreadyReady { return; }
      var lock := if alreadyLocked then manifest.lock.value else NewLock(manifest.candidate.value, w);
      if dryRun { return; }
      Unroll(disk, PromoteWrites(disk, w, dryRun, docsPass), crashAfter);
      var budget := crashAfter;
      if !alreadyLocked {
        if !Writable(lock) { return; }
        if budget == 0 { return; }
        disk := Apply(disk, WriteManifest(manifest.candidate, Some(lock)));
        budget := budget - 1;
      }
      if budget == 0 { return; }
      disk := Apply(disk, WriteStatus(commit, Ready));
      budget := budget - 1;
      if docsPass || budget == 0 { return; }
      disk := Apply(disk, WriteManifest(manifest.candidate, None));
      budget := budget - 1;
      if budget == 0 { return; }
      disk := Apply(disk, WriteStatus(commit, Pending));
    }
  }
}
