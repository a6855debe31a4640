/**
 The opaque-run scanner: it cuts a text into chunks of an encoding alphabet,
 judges the runs those chunks form, and then the text's alphabet-only
 projection, which is what a permissive decoder would read.

 The character classes and the tests on a run, a window or a chunk are
 regular expressions and decoders in the program and stay abstract.
 */
module OpaqueRun {
  import opened Results
  import opened Sequences
  import opened Tally

  const RUN_LENGTH := 24
  const WINDOW := 32

  datatype Detector = Detector(
    alphabet: char -> bool,
    naturalGap: string -> bool,
    looksEncoded: string -> bool,
    decodesToText: string -> bool,
    wordlike: string -> bool,
    churns: string -> bool)

  datatype Chunk = Chunk(text: string, gapBefore: string)

  datatype Reason = EncodedRun(length: nat) | DecodableProjection | EncodedSpan

  // ---------------------------------------------------------------- decomposition

  ghost predicate All(p: char -> bool, s: string) { forall i :: 0 <= i < |s| ==> p(s[i]) }

  ghost predicate NoneIn(p: char -> bool, s: string) { forall i :: 0 <= i < |s| ==> !p(s[i]) }

  ghost function Rebuild(chunks: seq<Chunk>): (s: string) {
    if chunks == [] then ""
    else
      var last := chunks[|chunks| - 1];
      Rebuild(chunks[..|chunks| - 1]) + last.gapBefore + last.text
  }

  /** Non-empty alphabet chunks, separated by non-empty gaps, that rebuild the text. */
  ghost predicate Decomposes(alphabet: char -> bool, text: string, chunks: seq<Chunk>, tail: string) {
    && Rebuild(chunks) + tail == text
    && NoneIn(alphabet, tail)
    && forall i :: 0 <= i < |chunks| ==>
         && chunks[i].text != "" && All(alphabet, chunks[i].text)
         && NoneIn(alphabet, chunks[i].gapBefore)
         && (i > 0 ==> chunks[i].gapBefore != "")
  }

  /** What the loop keeps: `chunk` is the open chunk, or empty while a gap is open. */
  ghost predicate Splitting(alphabet: char -> bool, text: string, chunks: seq<Chunk>, gap: string, chunk: string) {
    && Decomposes(alphabet, text, chunks, gap)
    && (chunk == "" ==> chunks == [] || gap != "")
    && (chunk != "" ==> chunks != [] && chunks[|chunks| - 1].text == chunk && gap == "")
  }

  /** The chunk/gap loop. */
  method Split(alphabet: char -> bool, text: string) returns (chunks: seq<Chunk>, gap: string)
    ensures Decomposes(alphabet, text, chunks, gap)
  {
    chunks, gap := [], "";
    var chunk := "";
    ghost var done := "";
    for i := 0 to |text|
      invariant done == text[..i]
      invariant Splitting(alphabet, done, chunks, gap, chunk)
    {
      chunks, gap, chunk := Take(alphabet, chunks, gap, chunk, text[i], done);
      done := done + [text[i]];
    }
  }

  /** One character. */
  method Take(alphabet: char -> bool, chunks: seq<Chunk>, gap: string, chunk: string, c: char, ghost done: string)
    returns (chunks': seq<Chunk>, gap': string, chunk': string)
    requires Splitting(alphabet, done, chunks, gap, chunk)
    ensures Splitting(alphabet, done + [c], chunks', gap', chunk')
  {
    chunks', gap', chunk' := chunks, gap, chunk;
    if alphabet(c) {
      if chunk == "" {
        OpenChunk(alphabet, done, chunks, gap, c);
        chunks', gap' := chunks + [Chunk("", gap)], "";
      } else {
        ExtendChunk(alphabet, done, chunks, gap, chunk, c);
      }
      chunk' := chunk' + [c];
      chunks' := WithLastText(chunks', chunk');
    } else {
      ExtendGap(alphabet, done, chunks, gap, chunk, c);
      chunk' := "";
      gap' := gap' + [c];
    }
  }

  function WithLastText(chunks: seq<Chunk>, text: string): (r: seq<Chunk>)
    requires chunks != []
  {
    chunks[..|chunks| - 1] + [chunks[|chunks| - 1].(text := text)]
  }

  lemma OpenChunk(alphabet: char -> bool, text: string, chunks: seq<Chunk>, gap: string, c: char)
    requires Splitting(alphabet, text, chunks, gap, "") && alphabet(c)
    ensures Splitting(alphabet, text + [c], WithLastText(chunks + [Chunk("", gap)], "" + [c]), "", "" + [c])
  {
    var grown := chunks + [Chunk("", gap)];
    assert grown[..|grown| - 1] == chunks && "" + [c] == [c];
    var more := WithLastText(grown, "" + [c]);
    assert more == chunks + [Chunk([c], gap)];
    assert more[..|more| - 1] == chunks;
    assert Rebuild(more) + "" == text + [c];
  }

  lemma ExtendChunk(alphabet: char -> bool, text: string, chunks: seq<Chunk>, gap: string, chunk: string, c: char)
    requires chunk != "" && Splitting(alphabet, text, chunks, gap, chunk) && alphabet(c)
    ensures Splitting(alphabet, text + [c], WithLastText(chunks, chunk + [c]), gap, chunk + [c])
  {
    var more := WithLastText(chunks, chunk + [c]);
    assert more[..|more| - 1] == chunks[..|chunks| - 1];
    assert Rebuild(more) + "" == text + [c];
  }

  lemma ExtendGap(alphabet: char -> bool, text: string, chunks: seq<Chunk>, gap: string, chunk: string, c: char)
    requires Splitting(alphabet, text, chunks, gap, chunk) && !alphabet(c)
    ensures Splitting(alphabet, text + [c], chunks, gap + [c], "")
  {
    assert Rebuild(chunks) + (gap + [c]) == text + [c];
  }

  /** A text has one maximal suffix of a kind. */
  lemma CutUnique(p: char -> bool, a: string, s: string, b: string, t: string)
    requires a + s == b + t && All(p, s) && All(p, t)
    requires a == "" || !p(a[|a| - 1])
    requires b == "" || !p(b[|b| - 1])
    ensures a == b && s == t
  {
    var whole := a + s;
    assert b != "" ==> whole[|b| - 1] == b[|b| - 1];
    assert a != "" ==> whole[|a| - 1] == a[|a| - 1];
    assert |a| == |b|;
    assert whole[..|a|] == a && whole[..|b|] == b && whole[|a|..] == s && whole[|b|..] == t;
  }

  lemma LastIsAlphabet(alphabet: char -> bool, chunks: seq<Chunk>, text: string, tail: string)
    requires Decomposes(alphabet, text, chunks, tail) && chunks != []
    ensures Rebuild(chunks) != "" && alphabet(Rebuild(chunks)[|Rebuild(chunks)| - 1])
  {
    var last := chunks[|chunks| - 1];
    assert last.text[|last.text| - 1] == Rebuild(chunks)[|Rebuild(chunks)| - 1];
  }

  lemma Prefix(alphabet: char -> bool, chunks: seq<Chunk>, text: string, tail: string)
    requires Decomposes(alphabet, text, chunks, tail) && chunks != []
    ensures var before, gap := chunks[..|chunks| - 1], chunks[|chunks| - 1].gapBefore;
      && Decomposes(alphabet, Rebuild(before) + gap, before, gap)
      && (Rebuild(before) + gap == "" || !alphabet((Rebuild(before) + gap)[|Rebuild(before) + gap| - 1]))
  {
    var before, gap := chunks[..|chunks| - 1], chunks[|chunks| - 1].gapBefore;
    if gap != "" {
      assert (Rebuild(before) + gap)[|Rebuild(before) + gap| - 1] == gap[|gap| - 1];
    } else {
      assert before == [];
    }
  }

  /** The decomposition is unique, so "the chunks of a text" is well defined. */
  lemma {:induction false} DecompositionUnique(
    alphabet: char -> bool, text: string, a: seq<Chunk>, s: string, b: seq<Chunk>, t: string)
    requires Decomposes(alphabet, text, a, s) && Decomposes(alphabet, text, b, t)
    ensures a == b && s == t
    decreases |a|
  {
    var outside := c => !alphabet(c);
    if a != [] { LastIsAlphabet(alphabet, a, text, s); }
    if b != [] { LastIsAlphabet(alphabet, b, text, t); }
    CutUnique(outside, Rebuild(a), s, Rebuild(b), t);
    if a != [] && b != [] {
      var lastA, lastB := a[|a| - 1], b[|b| - 1];
      var beforeA, beforeB := a[..|a| - 1], b[..|b| - 1];
      Prefix(alphabet, a, text, s);
      Prefix(alphabet, b, text, t);
      var rest := Rebuild(beforeA) + lastA.gapBefore;
      CutUnique(alphabet, rest, lastA.text, Rebuild(beforeB) + lastB.gapBefore, lastB.text);
      DecompositionUnique(alphabet, rest, beforeA, lastA.gapBefore, beforeB, lastB.gapBefore);
      assert a == beforeA + [lastA] && b == beforeB + [lastB];
    }
  }

  // ---------------------------------------------------------------- projection

  function Joined(chunks: seq<Chunk>, a: nat, b: nat): (s: string)
    requires a <= b <= |chunks|
    decreases b
  {
    if a == b then "" else Joined(chunks, a, b - 1) + chunks[b - 1].text
  }

  function Projection(chunks: seq<Chunk>): (s: string) { Joined(chunks, 0, |chunks|) }

  /** The characters of a text that belong to the alphabet, in order. */
  ghost function Filter(p: char -> bool, s: string): (r: string) {
    if s == "" then "" else Filter(p, s[..|s| - 1]) + if p(s[|s| - 1]) then [s[|s| - 1]] else []
  }

  lemma {:induction false} FilterConcat(p: char -> bool, a: string, b: string)
    ensures Filter(p, a + b) == Filter(p, a) + Filter(p, b)
  {
    if b == "" {
      assert a + b == a;
    } else {
      assert (a + b)[..|a + b| - 1] == a + b[..|b| - 1];
      FilterConcat(p, a, b[..|b| - 1]);
    }
  }

  lemma {:induction false} FilterAll(p: char -> bool, s: string)
    ensures All(p, s) ==> Filter(p, s) == s
    ensures NoneIn(p, s) ==> Filter(p, s) == ""
  {
    if s != "" {
      FilterAll(p, s[..|s| - 1]);
      assert s == s[..|s| - 1] + [s[|s| - 1]];
    }
  }

  lemma {:induction false} JoinedPrefix(chunks: seq<Chunk>, n: nat, a: nat, b: nat)
    requires a <= b <= n <= |chunks|
    ensures Joined(chunks[..n], a, b) == Joined(chunks, a, b)
    decreases b
  {
    if a < b { JoinedPrefix(chunks, n, a, b - 1); }
  }

  lemma ProjectionOfRebuilt(alphabet: char -> bool, text: string, chunks: seq<Chunk>, tail: string)
    requires Decomposes(alphabet, text, chunks, tail)
    ensures Filter(alphabet, text) == Projection(chunks)
  {
    FilterConcat(alphabet, Rebuild(chunks), tail);
    FilterAll(alphabet, tail);
    ProjectionOfChunks(alphabet, text, chunks, tail);
  }

  lemma {:induction false} ProjectionOfChunks(alphabet: char -> bool, text: string, chunks: seq<Chunk>, tail: string)
    requires Decomposes(alphabet, text, chunks, tail)
    ensures Filter(alphabet, Rebuild(chunks)) == Projection(chunks)
    decreases |chunks|
  {
    if chunks != [] {
      var n := |chunks| - 1;
      var last := chunks[n];
      Prefix(alphabet, chunks, text, tail);
      ProjectionOfChunks(alphabet, Rebuild(chunks[..n]) + last.gapBefore, chunks[..n], last.gapBefore);
      JoinedPrefix(chunks, n, 0, n);
      FilterOfLast(alphabet, Rebuild(chunks[..n]), last);
    }
  }

  lemma FilterDropsGap(alphabet: char -> bool, before: string, gap: string)
    requires NoneIn(alphabet, gap)
    ensures Filter(alphabet, before + gap) == Filter(alphabet, before)
  {
    FilterConcat(alphabet, before, gap);
    FilterAll(alphabet, gap);
  }

  lemma FilterKeepsText(alphabet: char -> bool, before: string, text: string)
    requires All(alphabet, text)
    ensures Filter(alphabet, before + text) == Filter(alphabet, before) + text
  {
    FilterConcat(alphabet, before, text);
    FilterAll(alphabet, text);
  }

  lemma FilterOfLast(alphabet: char -> bool, before: string, last: Chunk)
    requires NoneIn(alphabet, last.gapBefore) && All(alphabet, last.text)
    ensures Filter(alphabet, before + last.gapBefore + last.text) == Filter(alphabet, before) + last.text
  {
    FilterDropsGap(alphabet, before, last.gapBefore);
    FilterKeepsText(alphabet, before + last.gapBefore, last.text);
  }

  // ---------------------------------------------------------------- runs

  /** A maximal stretch of chunks with no natural word gap inside. */
  ghost predicate IsRun(d: Detector, chunks: seq<Chunk>, a: nat, b: nat) {
    && a < b <= |chunks|
    && (a == 0 || d.naturalGap(chunks[a].gapBefore))
    && (b == |chunks| || d.naturalGap(chunks[b].gapBefore))
    && forall k :: a < k < b ==> !d.naturalGap(chunks[k].gapBefore)
  }

  predicate RunRefused(d: Detector, s: string) { |s| >= RUN_LENGTH && d.looksEncoded(s) }

  /** No run that ends by `limit` is refused. */
  ghost predicate RunsFine(d: Detector, chunks: seq<Chunk>, limit: nat) {
    forall a: nat, b: nat :: IsRun(d, chunks, a, b) && b <= limit ==> !RunRefused(d, Joined(chunks, a, b))
  }

  ghost predicate FirstRefused(d: Detector, chunks: seq<Chunk>, a: nat, b: nat) {
    IsRun(d, chunks, a, b) && RunRefused(d, Joined(chunks, a, b)) && RunsFine(d, chunks, a)
  }

  lemma RunsFineStep(d: Detector, chunks: seq<Chunk>, a: nat, b: nat)
    requires IsRun(d, chunks, a, b) && RunsFine(d, chunks, a) && !RunRefused(d, Joined(chunks, a, b))
    ensures RunsFine(d, chunks, b)
  {
    forall x: nat, y: nat | IsRun(d, chunks, x, y) && y <= b ensures !RunRefused(d, Joined(chunks, x, y)) {
      if y > a {
        assert y == b;
        assert x == a;
      }
    }
  }

  /** The joined-run loop with its flushes. */
  method ScanRuns(d: Detector, chunks: seq<Chunk>) returns (found: Option<nat>)
    ensures found.None? <==> RunsFine(d, chunks, |chunks|)
    ensures found.Some? ==>
      exists a: nat, b: nat :: FirstRefused(d, chunks, a, b) && found.value == |Joined(chunks, a, b)|
  {
    var joined := "";
    ghost var a := 0;
    for i := 0 to |chunks|
      invariant a <= i && (i > 0 ==> a < i)
      invariant a == 0 || d.naturalGap(chunks[a].gapBefore)
      invariant forall k :: a < k < i ==> !d.naturalGap(chunks[k].gapBefore)
      invariant joined == Joined(chunks, a, i)
      invariant RunsFine(d, chunks, a)
    {
      if i > 0 && d.naturalGap(chunks[i].gapBefore) {
        assert IsRun(d, chunks, a, i);
        if RunRefused(d, joined) {
          assert FirstRefused(d, chunks, a, i);
          return Some(|joined|);
        }
        RunsFineStep(d, chunks, a, i);
        a, joined := i, "";
      }
      joined := joined + chunks[i].text;
    }
    if RunRefused(d, joined) {
      assert FirstRefused(d, chunks, a, |chunks|);
      return Some(|joined|);
    }
    if chunks != [] { RunsFineStep(d, chunks, a, |chunks|); }
    found := None;
  }

  // ---------------------------------------------------------------- windows

  function WindowCount(length: nat): (n: nat) {
    if length <= WINDOW then 1 else (length - WINDOW) / 4 + 1
  }

  function WindowAt(projection: string, i: nat): (w: string)
    requires i < WindowCount(|projection|)
  {
    if |projection| <= WINDOW then projection else projection[4 * i..4 * i + WINDOW]
  }

  ghost predicate DecodableWindow(d: Detector, projection: string) {
    exists i: nat :: i < WindowCount(|projection|) && d.decodesToText(WindowAt(projection, i))
  }

  /** Any 35 consecutive projected characters contain a whole scanned window. */
  lemma WindowsCover(projection: string, start: nat) returns (i: nat)
    requires start + 35 <= |projection|
    ensures i < WindowCount(|projection|)
    ensures start <= 4 * i && 4 * i + WINDOW <= start + 35
    ensures WindowAt(projection, i) == projection[start..start + 35][4 * i - start..4 * i - start + WINDOW]
  {
    i := (start + 3) / 4;
    SliceOfSlice(projection, start, start + 35, 4 * i - start, 4 * i - start + WINDOW);
  }

  /** No shorter stretch would do. */
  lemma ThirtyFourIsTooFew(projection: string, start: nat)
    requires start % 4 == 1 && start + 34 <= |projection|
    ensures !exists i: nat :: i < WindowCount(|projection|) && start <= 4 * i && 4 * i + WINDOW <= start + 34
  {
  }

  method ScanWindows(d: Detector, projection: string) returns (found: bool)
    ensures found <==> DecodableWindow(d, projection)
  {
    for i := 0 to WindowCount(|projection|)
      invariant forall k: nat :: k < i ==> !d.decodesToText(WindowAt(projection, k))
    {
      if d.decodesToText(WindowAt(projection, i)) { return true; }
    }
    found := false;
  }

  // ---------------------------------------------------------------- spans across word gaps

  /** The first end at which the span reaches a window's length, or the last chunk. */
  ghost predicate IsSpan(chunks: seq<Chunk>, start: nat, end: nat) {
    && start <= end <= |chunks|
    && (forall k :: start <= k < end ==> |Joined(chunks, start, k)| < WINDOW)
    && (end == |chunks| || |Joined(chunks, start, end)| >= WINDOW)
  }

  function NonWords(d: Detector, chunks: seq<Chunk>): (n: nat) {
    if chunks == [] then 0
    else NonWords(d, chunks[..|chunks| - 1]) + if d.wordlike(chunks[|chunks| - 1].text) then 0 else 1
  }

  /** At least three in ten chunks are not words, and the joined text churns. */
  predicate SpanEncoded(d: Detector, chunks: seq<Chunk>, start: nat, end: nat)
    requires start <= end <= |chunks|
  {
    && |Joined(chunks, start, end)| >= RUN_LENGTH
    && 10 * NonWords(d, chunks[start..end]) >= 3 * (end - start)
    && d.churns(Joined(chunks, start, end))
  }

  ghost predicate HasEncodedSpan(d: Detector, chunks: seq<Chunk>) {
    exists start: nat, end: nat :: IsSpan(chunks, start, end) && SpanEncoded(d, chunks, start, end)
  }

  lemma {:induction false} JoinedSplit(chunks: seq<Chunk>, a: nat, b: nat, c: nat)
    requires a <= b <= c <= |chunks|
    ensures Joined(chunks, a, c) == Joined(chunks, a, b) + Joined(chunks, b, c)
    decreases c
  {
    if b < c { JoinedSplit(chunks, a, b, c - 1); }
  }

  lemma SpanUnique(chunks: seq<Chunk>, start: nat, e: nat, f: nat)
    requires IsSpan(chunks, start, e) && IsSpan(chunks, start, f)
    ensures e == f
  {
  }

  method SpanEnd(chunks: seq<Chunk>, start: nat) returns (end: nat, length: nat)
    requires start <= |chunks|
    ensures IsSpan(chunks, start, end) && length == |Joined(chunks, start, end)|
  {
    end, length := start, 0;
    while end < |chunks| && length < WINDOW
      invariant start <= end <= |chunks| && length == |Joined(chunks, start, end)|
      invariant forall k :: start <= k < end ==> |Joined(chunks, start, k)| < WINDOW
    {
      assert |Joined(chunks, start, end + 1)| == |Joined(chunks, start, end)| + |chunks[end].text|;
      length := length + |chunks[end].text|;
      end := end + 1;
    }
  }

  /** A short span reaches the last chunk, and every later span is shorter still. */
  lemma BreakLosesNothing(d: Detector, chunks: seq<Chunk>, start: nat, end: nat, later: nat, laterEnd: nat)
    requires IsSpan(chunks, start, end) && |Joined(chunks, start, end)| < RUN_LENGTH
    requires start <= later && IsSpan(chunks, later, laterEnd)
    ensures !SpanEncoded(d, chunks, later, laterEnd)
  {
    JoinedSplit(chunks, start, later, |chunks|);
    JoinedSplit(chunks, later, laterEnd, |chunks|);
  }

  ghost predicate SpansFine(d: Detector, chunks: seq<Chunk>, limit: nat) {
    forall start: nat, end: nat :: start < limit && IsSpan(chunks, start, end) ==> !SpanEncoded(d, chunks, start, end)
  }

  lemma AllSpansFine(d: Detector, chunks: seq<Chunk>)
    requires SpansFine(d, chunks, |chunks|)
    ensures !HasEncodedSpan(d, chunks)
  {
    assert forall start: nat, end: nat ::
      IsSpan(chunks, start, end) && start >= |chunks| ==> Joined(chunks, start, end) == "";
  }

  method ScanSpans(d: Detector, chunks: seq<Chunk>) returns (found: bool)
    ensures found <==> HasEncodedSpan(d, chunks)
  {
    for start := 0 to |chunks|
      invariant SpansFine(d, chunks, start)
    {
      var end, length := SpanEnd(chunks, start);
      if length < RUN_LENGTH {
        forall later: nat, laterEnd: nat | start <= later && IsSpan(chunks, later, laterEnd)
          ensures !SpanEncoded(d, chunks, later, laterEnd)
        {
          BreakLosesNothing(d, chunks, start, end, later, laterEnd);
        }
        return false;
      }
      if SpanEncoded(d, chunks, start, end) { return true; }
      forall e: nat | IsSpan(chunks, start, e) ensures !SpanEncoded(d, chunks, start, e) {
        SpanUnique(chunks, start, end, e);
      }
    }
    AllSpansFine(d, chunks);
    found := false;
  }

  // ---------------------------------------------------------------- the verdict

  /** What each answer means. */
  ghost predicate Verdict(d: Detector, chunks: seq<Chunk>, r: Option<Reason>) {
    var projection := Projection(chunks);
    match r
    case Some(EncodedRun(length)) =>
      exists a: nat, b: nat :: FirstRefused(d, chunks, a, b) && length == |Joined(chunks, a, b)|
    case Some(DecodableProjection) =>
      RunsFine(d, chunks, |chunks|) && |projection| >= RUN_LENGTH && DecodableWindow(d, projection)
    case Some(EncodedSpan) =>
      && RunsFine(d, chunks, |chunks|) && |projection| >= RUN_LENGTH
      && !DecodableWindow(d, projection) && HasEncodedSpan(d, chunks)
    case None =>
      && RunsFine(d, chunks, |chunks|)
      && (|projection| >= RUN_LENGTH ==> !DecodableWindow(d, projection) && !HasEncodedSpan(d, chunks))
  }

  method Judge(d: Detector, chunks: seq<Chunk>) returns (r: Option<Reason>)
    ensures Verdict(d, chunks, r)
  {
    var run := ScanRuns(d, chunks);
    if run.Some? { return Some(EncodedRun(run.value)); }
    var projection := Projection(chunks);
    if |projection| < RUN_LENGTH { return None; }
    var decodable := ScanWindows(d, projection);
    if decodable { return Some(DecodableProjection); }
    var encoded := ScanSpans(d, chunks);
    r := if encoded then Some(EncodedSpan) else None;
  }

  lemma JoinedWithin(chunks: seq<Chunk>, a: nat, b: nat)
    requires a <= b <= |chunks|
    ensures |Joined(chunks, a, b)| <= |Projection(chunks)|
  {
    JoinedMonotone(chunks, 0, a, b);
    JoinedPrefixes(chunks, b);
  }

  lemma {:induction false} JoinedMonotone(chunks: seq<Chunk>, c: nat, a: nat, b: nat)
    requires c <= a <= b <= |chunks|
    ensures |Joined(chunks, a, b)| <= |Joined(chunks, c, b)|
    decreases b
  {
    if a < b { JoinedMonotone(chunks, c, a, b - 1); }
  }

  lemma {:induction false} JoinedPrefixes(chunks: seq<Chunk>, b: nat)
    requires b <= |chunks|
    ensures |Joined(chunks, 0, b)| <= |Projection(chunks)|
    decreases |chunks| - b
  {
    if b < |chunks| { JoinedPrefixes(chunks, b + 1); }
  }

  /** Fewer than 24 characters of the alphabet are never refused. */
  lemma ShortTextsPass(d: Detector, chunks: seq<Chunk>, r: Option<Reason>)
    requires Verdict(d, chunks, r) && |Projection(chunks)| < 24
    ensures r == None
  {
    if r.Some? && r.value.EncodedRun? {
      var a: nat, b: nat :| FirstRefused(d, chunks, a, b) && r.value.length == |Joined(chunks, a, b)|;
      JoinedWithin(chunks, a, b);
    }
  }

  /** A run of 24 characters or more that looks encoded is refused as such. */
  lemma LongRunRefused(d: Detector, chunks: seq<Chunk>, r: Option<Reason>, a: nat, b: nat)
    requires Verdict(d, chunks, r) && IsRun(d, chunks, a, b)
    requires |Joined(chunks, a, b)| >= 24 && d.looksEncoded(Joined(chunks, a, b))
    ensures r.Some? && r.value.EncodedRun? && r.value.length >= 24
  {
    assert RunRefused(d, Joined(chunks, a, b));
  }

  ghost function NotWordlike(d: Detector): (p: Chunk -> bool) { (c: Chunk) => !d.wordlike(c.text) }

  lemma {:induction false} NonWordsExact(d: Detector, chunks: seq<Chunk>)
    ensures NonWords(d, chunks) == NumberOf(chunks, NotWordlike(d))
  {
    NumberOfExact(chunks, NotWordlike(d));
    if chunks != [] { NonWordsExact(d, chunks[..|chunks| - 1]); }
  }

  /**
   A span that churns, is 24 characters long, and has three chunks in ten that
   are no words; it ends as soon as it has 32 characters.
   */
  ghost predicate ChurningSpan(d: Detector, chunks: seq<Chunk>, start: nat, end: nat) {
    && start <= end <= |chunks|
    && (forall k :: start <= k < end ==> |Joined(chunks, start, k)| < 32)
    && (end == |chunks| || |Joined(chunks, start, end)| >= 32)
    && |Joined(chunks, start, end)| >= 24 && d.churns(Joined(chunks, start, end))
    && 10 * NumberOf(chunks[start..end], NotWordlike(d)) >= 3 * (end - start)
  }

  /** Such a span is refused. */
  lemma ChurningSpanRefused(d: Detector, chunks: seq<Chunk>, r: Option<Reason>, start: nat, end: nat)
    requires Verdict(d, chunks, r) && ChurningSpan(d, chunks, start, end)
    ensures r.Some?
  {
    NonWordsExact(d, chunks[start..end]);
    JoinedWithin(chunks, start, end);
    assert IsSpan(chunks, start, end) && SpanEncoded(d, chunks, start, end);
  }

  /** Whatever is refused as a span holds one. */
  lemma RefusedSpanChurns(d: Detector, chunks: seq<Chunk>)
    requires Verdict(d, chunks, Some(EncodedSpan))
    ensures exists start, end :: ChurningSpan(d, chunks, start, end)
  {
    var start: nat, end: nat :| IsSpan(chunks, start, end) && SpanEncoded(d, chunks, start, end);
    NonWordsExact(d, chunks[start..end]);
    assert ChurningSpan(d, chunks, start, end);
  }

  /** `opaqueRunReason`. */
  method OpaqueRunReason(d: Detector, text: string) returns (r: Option<Reason>)
    ensures forall chunks, tail :: Decomposes(d.alphabet, text, chunks, tail) ==> Verdict(d, chunks, r)
    ensures |Filter(d.alphabet, text)| >= RUN_LENGTH && DecodableWindow(d, Filter(d.alphabet, text)) ==> r.Some?
  {
    var chunks, tail := Split(d.alphabet, text);
    r := Judge(d, chunks);
    ProjectionOfRebuilt(d.alphabet, text, chunks, tail);
    forall other, rest | Decomposes(d.alphabet, text, other, rest) ensures Verdict(d, other, r) {
      DecompositionUnique(d.alphabet, text, chunks, tail, other, rest);
    }
  }

  /**
   Splitting an encoding up does not help: if the projection of one text has a
   decodable window, every text with that projection is refused, whatever
   separators it uses.
   */
  lemma SeparatorsDoNotHelp(
    d: Detector, one: string, other: string, chunks: seq<Chunk>, tail: string, r: Option<Reason>)
    requires Filter(d.alphabet, one) == Filter(d.alphabet, other)
    requires |Filter(d.alphabet, one)| >= RUN_LENGTH && DecodableWindow(d, Filter(d.alphabet, one))
    requires Decomposes(d.alphabet, other, chunks, tail) && Verdict(d, chunks, r)
    ensures r.Some?
  {
    ProjectionOfRebuilt(d.alphabet, other, chunks, tail);
  }

  /** The chunks determine the verdict. */
  lemma VerdictUnique(d: Detector, chunks: seq<Chunk>, r: Option<Reason>, q: Option<Reason>)
    requires Verdict(d, chunks, r) && Verdict(d, chunks, q)
    ensures r == q
  {
  }
}
