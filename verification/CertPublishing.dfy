/**
 Publishing interop certificates: any number of processes, interleaved step by
 step, each generating material in a directory of its own, moving it into
 place, and replacing the file that names the current generation.

 The file system is modelled at the level the steps observe: directories by
 name, files by inode. Staging writes are not atomic: processes share the
 staged file, truncate it under each other, write at their own offsets, and
 may still hold it open after another process renamed it into place. No lock
 is assumed, and a process may stop for good after any step.
 */
module CertPublishing {
  import opened Results

  /** A directory's certificate and key, each present or not. */
  datatype Material = Material(cert: Option<string>, key: Option<string>)

  datatype Phase =
    | Generating
    | Checked
    | Moved(generation: string)
    | Writing(generation: string, inode: nat, offset: nat)
    | Over

  datatype Process = Process(temp: string, phase: Phase)

  datatype State = State(
    dirs: map<string, Material>,
    files: map<nat, string>,
    current: Option<nat>,
    staged: Option<nat>,
    processes: map<nat, Process>,
    // history: names ever handed out, and what verification saw in a directory
    used: set<string>,
    verified: map<string, Material>)

  datatype Action =
    | MakeTemp(p: nat, name: string)
    | WriteKey(p: nat, content: string)
    | WriteCert(p: nat, content: string)
    | Check(p: nat)
    | Move(p: nat, name: string)
    | OpenStaged(p: nat, inode: nat)
    | WriteStaged(p: nat, count: nat)
    | Rename(p: nat)
    | Fail(p: nat)
    | RemoveKey(p: nat)
    | RemoveCert(p: nat)
    | RemoveTemp(p: nat)
    | Crash(p: nat)

  const EMPTY := State(map[], map[], None, None, map[], {}, map[])

  // ---------------------------------------------------------------- names and text

  predicate IsSpace(c: char) {
    c == ' ' || '\t' <= c <= '\r' || c == '\U{A0}' || c == '\U{1680}' || '\U{2000}' <= c <= '\U{200A}'
    || c == '\U{2028}' || c == '\U{2029}' || c == '\U{202F}' || c == '\U{205F}' || c == '\U{3000}' || c == '\U{FEFF}'
  }

  /** The code units that JavaScript trims. */
  lemma SpacesExact(c: char)
    ensures IsSpace(c) <==>
      var n := c as int;
      || 9 <= n <= 13 || n == 32 || n == 160 || n == 5760 || 8192 <= n <= 8202 || n == 8232 || n == 8233
      || n == 8239 || n == 8287 || n == 12288 || n == 65279
  {
  }

  predicate PendingName(name: string) { ".pending-" <= name }

  predicate GenerationName(name: string) {
    "generation-" <= name && forall i :: 0 <= i < |name| ==> !IsSpace(name[i])
  }

  lemma GenerationIsNotPending(name: string)
    requires GenerationName(name)
    ensures name[0] == 'g' && !PendingName(name)
  {
    assert "generation-"[0] == name[0];
  }

  /** The names that are handed out, and that the two kinds never meet. */
  lemma NamesExact(suffix: string, name: string)
    ensures PendingName(".pending-" + suffix)
    ensures (forall c :: c in suffix ==> !IsSpace(c)) ==> GenerationName("generation-" + suffix)
    ensures !(PendingName(name) && GenerationName(name))
  {
    var g := "generation-" + suffix;
    assert forall i :: 11 <= i < |g| ==> g[i] == suffix[i - 11];
    assert PendingName(name) ==> name[0] == '.';
    assert GenerationName(name) ==> name[0] == 'g';
  }

  function TrimStart(s: string): (r: string) {
    if s != "" && IsSpace(s[0]) then TrimStart(s[1..]) else s
  }

  function TrimEnd(s: string): (r: string)
    ensures r <= s
  {
    if s != "" && IsSpace(s[|s| - 1]) then TrimEnd(s[..|s| - 1]) else s
  }

  function Trim(s: string): (r: string) { TrimEnd(TrimStart(s)) }

  /** Writing at an offset; a gap before it reads as NUL. */
  /** Trimming takes spaces off both ends, and all of them. */
  lemma TrimExact(s: string) returns (i: nat, j: nat)
    ensures i <= j <= |s| && Trim(s) == s[i..j]
    ensures forall k :: 0 <= k < i || j <= k < |s| ==> IsSpace(s[k])
    ensures Trim(s) != "" ==> !IsSpace(s[i]) && !IsSpace(s[j - 1])
  {
    i := TrimStartAt(s);
    var rest := TrimStart(s);
    var end := TrimEndAt(rest);
    j := i + end;
    assert rest[..end] == s[i..j];
    forall k | j <= k < |s| ensures IsSpace(s[k]) { assert s[k] == rest[k - i]; }
  }

  lemma {:induction false} TrimStartAt(s: string) returns (i: nat)
    ensures i <= |s| && TrimStart(s) == s[i..] && (forall k :: 0 <= k < i ==> IsSpace(s[k]))
    ensures i < |s| ==> !IsSpace(s[i])
  {
    if s != "" && IsSpace(s[0]) {
      var k := TrimStartAt(s[1..]);
      i := k + 1;
    } else {
      i := 0;
    }
  }

  lemma {:induction false} TrimEndAt(s: string) returns (j: nat)
    ensures j <= |s| && TrimEnd(s) == s[..j] && (forall k :: j <= k < |s| ==> IsSpace(s[k]))
    ensures j > 0 ==> !IsSpace(s[j - 1])
  {
    if s != "" && IsSpace(s[|s| - 1]) {
      j := TrimEndAt(s[..|s| - 1]);
    } else {
      j := |s|;
    }
  }

  function WriteAt(content: string, offset: nat, text: string): (r: string) {
    var padded := if |content| < offset then content + seq(offset - |content|, _ => '\0') else content;
    padded[..offset] + text + if offset + |text| < |padded| then padded[offset + |text|..] else ""
  }

  // ---------------------------------------------------------------- what a reader sees

  /** `readCurrentGeneration`. */
  /** Writing at an offset replaces what is there, fills a gap with NULs, and keeps the rest. */
  lemma WriteAtExact(content: string, offset: nat, text: string)
    requires text != ""
    ensures var r := WriteAt(content, offset, text);
      && |r| == (if |content| < offset + |text| then offset + |text| else |content|)
      && forall i :: 0 <= i < |r| ==>
           r[i] == if offset <= i < offset + |text| then text[i - offset]
                   else if i < |content| then content[i] else '\0'
  {
  }

  function ReadCurrent(s: State): (r: Option<string>) {
    if s.current.None? || s.current.value !in s.files then None
    else
      var generation := Trim(s.files[s.current.value]);
      if generation == "" then None else Some(generation)
  }

  predicate HasBoth(s: State, name: string) {
    name in s.dirs && s.dirs[name].cert.Some? && s.dirs[name].key.Some?
  }

  /** `resolvePublishedMaterialPaths`: the generation directory it settles on, if any. */
  function Resolve(s: State): (r: Option<string>) {
    var generation := ReadCurrent(s);
    if generation.Some? && HasBoth(s, generation.value) then generation else None
  }

  // ---------------------------------------------------------------- steps

  type Validity = (string, string) -> bool

  predicate Whole(valid: Validity, m: Material) {
    m.cert.Some? && m.key.Some? && valid(m.cert.value, m.key.value)
  }

  predicate InPhase(s: State, p: nat, phase: Phase) { p in s.processes && s.processes[p].phase == phase }

  predicate HasTemp(s: State, p: nat) { p in s.processes && s.processes[p].temp in s.dirs }

  function PointerText(generation: string): (r: string) { generation + "\n" }

  predicate Enabled(valid: Validity, s: State, a: Action) {
    match a
    case MakeTemp(p, name) => p !in s.processes && PendingName(name) && name !in s.used
    case WriteKey(p, _) => InPhase(s, p, Generating) && HasTemp(s, p)
    case WriteCert(p, _) => InPhase(s, p, Generating) && HasTemp(s, p)
    case Check(p) => InPhase(s, p, Generating) && HasTemp(s, p) && Whole(valid, s.dirs[s.processes[p].temp])
    case Move(p, name) => InPhase(s, p, Checked) && HasTemp(s, p) && GenerationName(name) && name !in s.used
    case OpenStaged(p, inode) =>
      && p in s.processes && s.processes[p].phase.Moved?
      && (if s.staged.Some? then s.staged.value in s.files else inode !in s.files)
    case WriteStaged(p, count) =>
      && p in s.processes && s.processes[p].phase.Writing? && s.processes[p].phase.inode in s.files
      && 0 < count && s.processes[p].phase.offset + count <= |PointerText(s.processes[p].phase.generation)|
    case Rename(p) =>
      && p in s.processes && s.processes[p].phase.Writing? && s.staged.Some?
      && s.processes[p].phase.offset == |PointerText(s.processes[p].phase.generation)|
    case Fail(p) => p in s.processes
    case RemoveKey(p) => InPhase(s, p, Over) && HasTemp(s, p)
    case RemoveCert(p) => InPhase(s, p, Over) && HasTemp(s, p)
    case RemoveTemp(p) => InPhase(s, p, Over) && HasTemp(s, p)
    case Crash(p) => p in s.processes
  }

  function WithPhase(s: State, p: nat, phase: Phase): (r: State)
    requires p in s.processes
  {
    s.(processes := s.processes[p := s.processes[p].(phase := phase)])
  }

  function WithTemp(s: State, p: nat, m: Material): (r: State)
    requires p in s.processes
  {
    s.(dirs := s.dirs[s.processes[p].temp := m])
  }

  /** `renameSync(tempDir, generationDir)`. */
  function MovedInto(s: State, p: nat, name: string): (r: State)
    requires HasTemp(s, p)
  {
    var temp := s.processes[p].temp;
    WithPhase(s, p, Moved(name)).(
      dirs := (s.dirs - {temp})[name := s.dirs[temp]],
      used := s.used + {name},
      verified := if temp in s.verified then s.verified[name := s.verified[temp]] else s.verified)
  }

  /** Opening the staged file truncates it, whoever else has it open. */
  function Opened(s: State, p: nat, inode: nat): (r: State)
    requires p in s.processes && s.processes[p].phase.Moved?
  {
    var node := if s.staged.Some? then s.staged.value else inode;
    WithPhase(s, p, Writing(s.processes[p].phase.generation, node, 0)).(
      files := s.files[node := ""],
      staged := Some(node))
  }

  function WrittenSome(s: State, p: nat, count: nat): (r: State)
    requires p in s.processes && s.processes[p].phase.Writing? && s.processes[p].phase.inode in s.files
    requires s.processes[p].phase.offset + count <= |PointerText(s.processes[p].phase.generation)|
  {
    var Writing(generation, inode, offset) := s.processes[p].phase;
    var text := PointerText(generation)[offset..offset + count];
    WithPhase(s, p, Writing(generation, inode, offset + count)).(
      files := s.files[inode := WriteAt(s.files[inode], offset, text)])
  }

  function Apply(valid: Validity, s: State, a: Action): (r: State)
    requires Enabled(valid, s, a)
  {
    match a
    case MakeTemp(p, name) =>
      s.(dirs := s.dirs[name := Material(None, None)],
         processes := s.processes[p := Process(name, Generating)],
         used := s.used + {name})
    case WriteKey(p, content) => WithTemp(s, p, s.dirs[s.processes[p].temp].(key := Some(content)))
    case WriteCert(p, content) => WithTemp(s, p, s.dirs[s.processes[p].temp].(cert := Some(content)))
    case Check(p) =>
      WithPhase(s, p, Checked).(verified := s.verified[s.processes[p].temp := s.dirs[s.processes[p].temp]])
    case Move(p, name) => MovedInto(s, p, name)
    case OpenStaged(p, inode) => Opened(s, p, inode)
    case WriteStaged(p, count) => WrittenSome(s, p, count)
    case Rename(p) => WithPhase(s, p, Over).(current := s.staged, staged := None)
    case Fail(p) => WithPhase(s, p, Over)
    case RemoveKey(p) => WithTemp(s, p, s.dirs[s.processes[p].temp].(key := None))
    case RemoveCert(p) => WithTemp(s, p, s.dirs[s.processes[p].temp].(cert := None))
    case RemoveTemp(p) => s.(dirs := s.dirs - {s.processes[p].temp})
    case Crash(p) => s.(processes := s.processes - {p})
  }

  /** The state after the actions, if each was possible when its turn came. */
  function Run(valid: Validity, s: State, actions: seq<Action>): (r: Option<State>) {
    if actions == [] then Some(s)
    else
      var before := Run(valid, s, actions[..|actions| - 1]);
      var a := actions[|actions| - 1];
      if before.Some? && Enabled(valid, before.value, a) then Some(Apply(valid, before.value, a)) else None
  }

  // ---------------------------------------------------------------- the invariant

  /** Whatever is not pending was verified, and is what verification saw. */
  ghost predicate PublishedWhole(valid: Validity, s: State) {
    forall name :: name in s.dirs && !PendingName(name) ==>
      name in s.verified && s.dirs[name] == s.verified[name] && Whole(valid, s.dirs[name])
  }

  ghost predicate NamesKnown(s: State) { forall name :: name in s.dirs ==> name in s.used }

  ghost predicate OwnTemps(s: State) {
    && (forall p :: p in s.processes ==> PendingName(s.processes[p].temp) && s.processes[p].temp in s.used)
    && (forall p, q :: p in s.processes && q in s.processes && p != q ==> s.processes[p].temp != s.processes[q].temp)
  }

  ghost predicate CheckedWhole(valid: Validity, s: State) {
    forall p :: p in s.processes && s.processes[p].phase.Checked? && s.processes[p].temp in s.dirs ==>
      var temp := s.processes[p].temp;
      temp in s.verified && s.dirs[temp] == s.verified[temp] && Whole(valid, s.dirs[temp])
  }

  /** No pointer file ever begins like a pending directory's name. */
  predicate PointerLike(content: string) { content == "" || content[0] == 'g' || content[0] == '\0' }

  ghost predicate PointersLike(s: State) {
    && (forall n :: n in s.files ==> PointerLike(s.files[n]))
    && (forall p :: p in s.processes ==>
          match s.processes[p].phase
          case Moved(generation) => GenerationName(generation)
          case Writing(generation, _, _) => GenerationName(generation)
          case _ => true)
  }

  ghost predicate Inv(valid: Validity, s: State) {
    DirsInv(valid, s) && PointersLike(s)
  }

  lemma WritePointerLike(content: string, generation: string, offset: nat, count: nat)
    requires PointerLike(content) && GenerationName(generation)
    requires 0 < count && offset + count <= |PointerText(generation)|
    ensures PointerLike(WriteAt(content, offset, PointerText(generation)[offset..offset + count]))
  {
    assert PointerText(generation)[0] == 'g';
  }

  ghost predicate DirsInv(valid: Validity, s: State) {
    PublishedWhole(valid, s) && NamesKnown(s) && OwnTemps(s) && CheckedWhole(valid, s)
  }

  /** A process that is not checked may do as it likes with its own pending directory. */
  lemma TempWrites(valid: Validity, s: State, p: nat, m: Material)
    requires DirsInv(valid, s) && p in s.processes && !s.processes[p].phase.Checked?
    ensures DirsInv(valid, WithTemp(s, p, m))
    ensures DirsInv(valid, s.(dirs := s.dirs - {s.processes[p].temp}))
  {
  }

  lemma PhaseChanges(valid: Validity, s: State, p: nat, phase: Phase)
    requires DirsInv(valid, s) && p in s.processes && !phase.Checked?
    ensures DirsInv(valid, WithPhase(s, p, phase))
  {
  }

  lemma TempMade(valid: Validity, s: State, a: Action)
    requires DirsInv(valid, s) && a.MakeTemp? && Enabled(valid, s, a)
    ensures DirsInv(valid, Apply(valid, s, a))
  {
  }

  lemma TempChecked(valid: Validity, s: State, a: Action)
    requires DirsInv(valid, s) && a.Check? && Enabled(valid, s, a)
    ensures DirsInv(valid, Apply(valid, s, a))
  {
  }

  lemma TempMoved(valid: Validity, s: State, a: Action)
    requires DirsInv(valid, s) && a.Move? && Enabled(valid, s, a)
    ensures DirsInv(valid, Apply(valid, s, a))
  {
    GenerationIsNotPending(a.name);
  }

  /** Every step of every process keeps the directories in order ... */
  lemma StepKeepsDirs(valid: Validity, s: State, a: Action)
    requires DirsInv(valid, s) && Enabled(valid, s, a)
    ensures DirsInv(valid, Apply(valid, s, a))
  {
    match a
    case MakeTemp(_, _) => TempMade(valid, s, a);
    case WriteKey(p, content) => TempWrites(valid, s, p, s.dirs[s.processes[p].temp].(key := Some(content)));
    case WriteCert(p, content) => TempWrites(valid, s, p, s.dirs[s.processes[p].temp].(cert := Some(content)));
    case Check(_) => TempChecked(valid, s, a);
    case Move(_, _) => TempMoved(valid, s, a);
    case OpenStaged(p, inode) => PhaseChanges(valid, s, p, Apply(valid, s, a).processes[p].phase);
    case WriteStaged(p, _) => PhaseChanges(valid, s, p, Apply(valid, s, a).processes[p].phase);
    case Rename(p) => PhaseChanges(valid, s, p, Over);
    case Fail(p) => PhaseChanges(valid, s, p, Over);
    case RemoveKey(p) => TempWrites(valid, s, p, s.dirs[s.processes[p].temp].(key := None));
    case RemoveCert(p) => TempWrites(valid, s, p, s.dirs[s.processes[p].temp].(cert := None));
    case RemoveTemp(p) => TempWrites(valid, s, p, s.dirs[s.processes[p].temp]);
    case Crash(_) =>
  }

  /** ... and the files that name a generation too. */
  lemma StepKeepsPointers(valid: Validity, s: State, a: Action)
    requires PointersLike(s) && Enabled(valid, s, a)
    ensures PointersLike(Apply(valid, s, a))
  {
    if a.WriteStaged? {
      var Writing(generation, inode, offset) := s.processes[a.p].phase;
      WritePointerLike(s.files[inode], generation, offset, a.count);
    }
  }

  lemma {:induction false} RunKeepsInv(valid: Validity, s: State, actions: seq<Action>)
    requires Inv(valid, s) && Run(valid, s, actions).Some?
    ensures Inv(valid, Run(valid, s, actions).value)
  {
    if actions != [] {
      var init := actions[..|actions| - 1];
      RunKeepsInv(valid, s, init);
      StepKeepsDirs(valid, Run(valid, s, init).value, actions[|actions| - 1]);
      StepKeepsPointers(valid, Run(valid, s, init).value, actions[|actions| - 1]);
    }
  }

  // ---------------------------------------------------------------- readers

  /** A pointer read at any moment does not name a pending directory. */
  lemma ReadIsNotPending(s: State)
    requires PointersLike(s) && ReadCurrent(s).Some?
    ensures !PendingName(ReadCurrent(s).value)
  {
    var content := s.files[s.current.value];
    assert TrimStart(content) == content;
    var generation := TrimEnd(content);
    assert generation[0] == content[0];
  }

  /**
   In every interleaving of any number of publishers, a pointer that resolves
   to a directory names one that was moved in whole after verification.
   */
  lemma ResolvedIsWhole(valid: Validity, actions: seq<Action>)
    requires Run(valid, EMPTY, actions).Some?
    ensures var s := Run(valid, EMPTY, actions).value;
      var name := Resolve(s);
      name.Some? ==>
        && name.value in s.verified && s.dirs[name.value] == s.verified[name.value]
        && Whole(valid, s.dirs[name.value])
  {
    RunKeepsInv(valid, EMPTY, actions);
    var s := Run(valid, EMPTY, actions).value;
    if Resolve(s).Some? { ReadIsNotPending(s); }
  }

  lemma StepKeepsPublished(valid: Validity, s: State, a: Action, name: string)
    requires DirsInv(valid, s) && Enabled(valid, s, a) && name in s.dirs && !PendingName(name)
    ensures name in Apply(valid, s, a).dirs && Apply(valid, s, a).dirs[name] == s.dirs[name]
  {
  }

  lemma {:induction false} RunKeepsPublished(valid: Validity, s: State, actions: seq<Action>, name: string)
    requires Inv(valid, s) && Run(valid, s, actions).Some? && name in s.dirs && !PendingName(name)
    ensures name in Run(valid, s, actions).value.dirs && Run(valid, s, actions).value.dirs[name] == s.dirs[name]
  {
    if actions != [] {
      var init := actions[..|actions| - 1];
      RunKeepsPublished(valid, s, init, name);
      RunKeepsInv(valid, s, init);
      StepKeepsPublished(valid, Run(valid, s, init).value, actions[|actions| - 1], name);
    }
  }

  /**
   A reader's three looks need not be one moment: the current name is read in one
   state, the certificate is seen in a later one, the key in a later one still,
   and the directory is whole then and stays as it is ever after.
   */
  lemma ReaderSeesWhole(
    valid: Validity, before: seq<Action>, between: seq<Action>, between': seq<Action>, after: seq<Action>)
    requires Run(valid, EMPTY, before).Some?
    requires var s := Run(valid, EMPTY, before).value;
      && ReadCurrent(s).Some? && Run(valid, s, between).Some?
      && var s' := Run(valid, s, between).value;
      && ReadCurrent(s).value in s'.dirs && s'.dirs[ReadCurrent(s).value].cert.Some?
      && Run(valid, s', between').Some?
      && Run(valid, Run(valid, s', between').value, after).Some?
    ensures var s := Run(valid, EMPTY, before).value;
      var s'' := Run(valid, Run(valid, s, between).value, between').value;
      var last := Run(valid, s'', after).value;
      var name := ReadCurrent(s).value;
      name in s''.dirs && Whole(valid, s''.dirs[name]) && name in last.dirs && last.dirs[name] == s''.dirs[name]
  {
    var s := Run(valid, EMPTY, before).value;
    RunKeepsInv(valid, EMPTY, before);
    ReadIsNotPending(s);
    var s' := Run(valid, s, between).value;
    RunKeepsInv(valid, s, between);
    RunKeepsPublished(valid, s', between', ReadCurrent(s).value);
    RunKeepsInv(valid, s', between');
    RunKeepsPublished(valid, Run(valid, s', between').value, after, ReadCurrent(s).value);
  }

  // ---------------------------------------------------------------- one publisher, undisturbed

  lemma PointerTextRead(generation: string)
    requires GenerationName(generation)
    ensures Trim(PointerText(generation)) == generation
  {
    var text := PointerText(generation);
    assert text[0] == generation[0];
    assert TrimStart(text) == text;
    assert text[..|text| - 1] == generation;
    assert TrimEnd(text) == TrimEnd(generation) == generation;
  }

  lemma WriteFromStart(text: string)
    ensures WriteAt("", 0, text[0..|text|]) == text
  {
    assert text[0..|text|] == text;
  }

  lemma RunStep(valid: Validity, s: State, before: seq<Action>, a: Action, t: State)
    requires Run(valid, s, before) == Some(t) && Enabled(valid, t, a)
    ensures Run(valid, s, before + [a]) == Some(Apply(valid, t, a))
  {
    assert (before + [a])[..|before|] == before;
  }

  /** From nothing, one undisturbed process ends with its pair published, and with nothing else. */
  lemma FirstPublication(valid: Validity, p: nat, temp: string, name: string, cert: string, key: string, inode: nat)
    requires PendingName(temp) && GenerationName(name) && valid(cert, key)
    ensures var making := [MakeTemp(p, temp), WriteKey(p, key), WriteCert(p, cert), Check(p)];
      var publishing := [Move(p, name), OpenStaged(p, inode), WriteStaged(p, |name| + 1), Rename(p)];
      var end := Run(valid, EMPTY, making + publishing);
      && end.Some? && Resolve(end.value) == Some(name)
      && end.value.dirs == map[name := Material(Some(cert), Some(key))]
  {
    var s := MadeAndChecked(valid, p, temp, cert, key);
    assert temp[0] == '.' && name[0] == 'g';
    Published(valid, p, temp, name, cert, key, inode,
              [MakeTemp(p, temp), WriteKey(p, key), WriteCert(p, cert), Check(p)], s);
  }

  lemma MadeAndChecked(valid: Validity, p: nat, temp: string, cert: string, key: string) returns (s: State)
    requires PendingName(temp) && valid(cert, key)
    ensures Run(valid, EMPTY, [MakeTemp(p, temp), WriteKey(p, key), WriteCert(p, cert), Check(p)]) == Some(s)
    ensures InPhase(s, p, Checked) && s.processes[p].temp == temp && s.used == {temp}
    ensures s.dirs == map[temp := Material(Some(cert), Some(key))] && s.files == map[] && s.staged.None?
  {
    var none: seq<Action> := [];
    var made := Apply(valid, EMPTY, MakeTemp(p, temp));
    RunStep(valid, EMPTY, none, MakeTemp(p, temp), EMPTY);
    assert none + [MakeTemp(p, temp)] == [MakeTemp(p, temp)];
    var keyed := Apply(valid, made, WriteKey(p, key));
    var both := Apply(valid, keyed, WriteCert(p, cert));
    assert both.dirs == map[temp := Material(Some(cert), Some(key))];
    s := Apply(valid, both, Check(p));
    ThreeSteps(valid, [MakeTemp(p, temp)], made, WriteKey(p, key), WriteCert(p, cert), Check(p));
    assert [MakeTemp(p, temp)] + [WriteKey(p, key), WriteCert(p, cert), Check(p)]
      == [MakeTemp(p, temp), WriteKey(p, key), WriteCert(p, cert), Check(p)];
  }

  /** Opening and writing the staged file in one go. */
  lemma StagedWhole(valid: Validity, s: State, p: nat, name: string, inode: nat)
    requires InPhase(s, p, Moved(name)) && s.staged.None? && inode !in s.files
    ensures Enabled(valid, s, OpenStaged(p, inode))
    ensures var t := Apply(valid, s, OpenStaged(p, inode));
      && Enabled(valid, t, WriteStaged(p, |name| + 1))
      && var u := Apply(valid, t, WriteStaged(p, |name| + 1));
      && Enabled(valid, u, Rename(p)) && u.staged == Some(inode)
      && inode in u.files && u.files[inode] == PointerText(name) && u.dirs == s.dirs
  {
    WriteFromStart(PointerText(name));
  }

  lemma RenamedResolves(valid: Validity, s: State, p: nat, name: string)
    requires Enabled(valid, s, Rename(p)) && GenerationName(name) && HasBoth(s, name)
    requires s.staged.value in s.files && s.files[s.staged.value] == PointerText(name)
    ensures Resolve(Apply(valid, s, Rename(p))) == Some(name) && Apply(valid, s, Rename(p)).dirs == s.dirs
  {
    PointerTextRead(name);
  }

  lemma Published(
    valid: Validity, p: nat, temp: string, name: string, cert: string, key: string, inode: nat, before: seq<Action>,
    s: State)
    requires Run(valid, EMPTY, before) == Some(s) && InPhase(s, p, Checked) && s.processes[p].temp == temp
    requires s.dirs == map[temp := Material(Some(cert), Some(key))] && s.files == map[] && s.staged.None?
    requires PendingName(temp) && GenerationName(name) && name !in s.used
    ensures var end :=
        Run(valid, EMPTY, before + [Move(p, name), OpenStaged(p, inode), WriteStaged(p, |name| + 1), Rename(p)]);
      && end.Some? && Resolve(end.value) == Some(name)
      && end.value.dirs == map[name := Material(Some(cert), Some(key))]
  {
    var t1 := Apply(valid, s, Move(p, name));
    RunStep(valid, EMPTY, before, Move(p, name), s);
    assert t1.dirs == map[name := Material(Some(cert), Some(key))] && InPhase(t1, p, Moved(name));
    StagedWhole(valid, t1, p, name, inode);
    ThreeSteps(
      valid, before + [Move(p, name)], t1, OpenStaged(p, inode), WriteStaged(p, |name| + 1), Rename(p));
    assert before + [Move(p, name)] + [OpenStaged(p, inode), WriteStaged(p, |name| + 1), Rename(p)]
      == before + [Move(p, name), OpenStaged(p, inode), WriteStaged(p, |name| + 1), Rename(p)];
    RenamedResolves(
      valid, Apply(valid, Apply(valid, t1, OpenStaged(p, inode)), WriteStaged(p, |name| + 1)), p, name);
  }

  lemma ThreeSteps(valid: Validity, before: seq<Action>, s: State, a: Action, b: Action, c: Action)
    requires Run(valid, EMPTY, before) == Some(s)
    requires Enabled(valid, s, a)
    requires Enabled(valid, Apply(valid, s, a), b)
    requires Enabled(valid, Apply(valid, Apply(valid, s, a), b), c)
    ensures Run(valid, EMPTY, before + [a, b, c]) == Some(Apply(valid, Apply(valid, Apply(valid, s, a), b), c))
  {
    RunStep(valid, EMPTY, before, a, s);
    RunStep(valid, EMPTY, before + [a], b, Apply(valid, s, a));
    RunStep(valid, EMPTY, before + [a] + [b], c, Apply(valid, Apply(valid, s, a), b));
    assert before + [a] + [b] + [c] == before + [a, b, c];
  }

  /** A process that fails can take its temporary directory with it, and nothing else. */
  lemma FailureCleansUp(valid: Validity, s: State, p: nat)
    requires HasTemp(s, p)
    ensures var end := Run(valid, s, [Fail(p), RemoveTemp(p)]);
      end.Some? && end.value.dirs == s.dirs - {s.processes[p].temp}
      && end.value.files == s.files && end.value.current == s.current
  {
    var none: seq<Action> := [];
    RunStep(valid, s, none, Fail(p), s);
    RunStep(valid, s, none + [Fail(p)], RemoveTemp(p), Apply(valid, s, Fail(p)));
    assert none + [Fail(p)] + [RemoveTemp(p)] == [Fail(p), RemoveTemp(p)];
  }

  class CertDirectory {
    var state: State

    /** `publishAtomically`: three steps, after which the current file names the new generation. */
    method PublishAtomically(valid: Validity, p: nat, generation: string, inode: nat)
      requires Inv(valid, state) && Enabled(valid, state, Move(p, generation))
      requires inode !in state.files && (state.staged.Some? ==> state.staged.value in state.files)
      modifies this
      ensures Inv(valid, state)
      ensures Resolve(state) == Some(generation)
      ensures var temp := old(state.processes[p].temp);
        state.dirs == (old(state.dirs) - {temp})[generation := old(state.verified[state.processes[p].temp])]
    {
      Step(valid, Move(p, generation));
      WriteStagedPointer(valid, p, generation, inode);
      ghost var node := state.staged.value;
      Step(valid, Rename(p));
      PointerTextRead(generation);
      assert ReadCurrent(state) == Some(generation);
      assert HasBoth(state, generation);
    }

    /** `writeFileSync(stagedCurrentPath, ...)`. */
    method WriteStagedPointer(valid: Validity, p: nat, generation: string, inode: nat)
      requires Inv(valid, state) && InPhase(state, p, Moved(generation))
      requires inode !in state.files && (state.staged.Some? ==> state.staged.value in state.files)
      modifies this
      ensures Inv(valid, state) && Enabled(valid, state, Rename(p))
      ensures state.staged.Some? && state.staged.value in state.files
      ensures state.files[state.staged.value] == PointerText(generation)
      ensures state.dirs == old(state.dirs)
    {
      Step(valid, OpenStaged(p, inode));
      Step(valid, WriteStaged(p, |PointerText(generation)|));
      WriteFromStart(PointerText(generation));
    }

    method Step(valid: Validity, a: Action)
      requires Inv(valid, state) && Enabled(valid, state, a)
      modifies this
      ensures state == Apply(valid, old(state), a) && Inv(valid, state)
    {
      StepKeepsDirs(valid, state, a);
      StepKeepsPointers(valid, state, a);
      state := Apply(valid, state, a);
    }
  }
}
