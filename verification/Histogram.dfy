/**
 The latency histogram: an array of 32-bit counters filled one sample at a time.

 The class is proved against a value-level state. The theorems relate that state
 to the run of samples that produced it: a percentile of the histogram is the
 representative of the bucket holding the exact nearest-rank sample of the sorted
 run, the counters conserve samples exactly while none of them has wrapped, and
 the sparse JSON form restores the state under the same condition.
 */
module Histogram {
  import opened Results
  import opened Sequences
  import opened Buckets
  import opened Tally

  /** Counters hold values below this. */
  const WIDTH := 0x1_0000_0000

  type uint32 = n: nat | n < WIDTH

  /** What a counter keeps of a number. The modulus is spelled out because arithmetic modulo a literal is cheap. */
  function Low32(n: nat): (r: uint32) { n % 0x1_0000_0000 }

  datatype State = State(
    counts: seq<uint32>,
    total: nat,
    recorded: nat,
    negative: nat,
    min: Option<real>,
    max: real,
    sum: real)

  function Empty(): (s: State) { State(Repeat(BUCKETS, 0), 0, 0, 0, None, 0.0, 0.0) }

  function Bump(counts: seq<uint32>, i: nat, step: nat): (r: seq<uint32>)
    requires i < |counts|
    ensures |r| == |counts|
  {
    counts[i := Low32(counts[i] + step)]
  }

  /** What `record` is given: a number, or not even that. */
  datatype Sample = Number(ns: real) | NaN

  /** No comparison holds of NaN, so it is recorded as a negative sample, whose value is never looked at. */
  function Measured(x: Sample): (ns: real) { if x.NaN? then -1.0 else x.ns }

  function RecordOne(s: State, ns: real): (r: State)
    requires |s.counts| == BUCKETS
    ensures |r.counts| == BUCKETS
  {
    if ns < 0.0 then s.(negative := s.negative + 1)
    else State(
        Bump(s.counts, BucketIndex(ns), 1),
        s.total + 1,
        s.recorded + 1,
        s.negative,
        if s.min.None? || ns < s.min.value then Some(ns) else s.min,
        if ns > s.max then ns else s.max,
        s.sum + ns)
  }

  /** The state after recording `samples` into an empty histogram. */
  function Run(samples: seq<real>): (s: State)
    ensures |s.counts| == BUCKETS
  {
    if samples == [] then Empty()
    else RecordOne(Run(samples[..|samples| - 1]), samples[|samples| - 1])
  }

  function Ceil(x: real): (n: int) { -((-x).Floor) }

  /** Nearest rank of the quantile `q` among `total` samples. */
  function Rank(q: real, total: nat): (r: nat) {
    var c := Ceil(q * total as real);
    if c < 1 then 1 else c
  }

  /** The first bucket at which the running count reaches `rank`. */
  function FirstReaching(counts: seq<uint32>, i: nat, seen: nat, rank: nat): (r: Option<nat>)
    requires i <= |counts|
    ensures r.Some? ==> i <= r.value < |counts|
    decreases |counts| - i
  {
    if i == |counts| then None
    else if seen + counts[i] >= rank then Some(i)
    else FirstReaching(counts, i + 1, seen + counts[i], rank)
  }

  function Percentile(s: State, q: real): (v: real)
    requires |s.counts| == BUCKETS
  {
    if s.total == 0 then 0.0 else ValueAtRank(s, Rank(q, s.total))
  }

  function ValueAtRank(s: State, rank: nat): (v: real)
    requires |s.counts| == BUCKETS
  {
    match FirstReaching(s.counts, 0, 0, rank)
    case Some(i) => BucketValue(i)
    case None => s.max
  }

  // ---------------------------------------------------------------- counting samples

  /** The bucket of a sample, or -1 for a negative one. */
  ghost function Slot(ns: real): int { if ns < 0.0 then -1 else BucketIndex(ns) }

  /** Non-negative samples whose bucket lies in [lo, hi). */
  ghost function Count(samples: seq<real>, lo: int, hi: int): (n: nat) { Hits(samples, Slot, lo, hi) }

  ghost predicate AllNonNegative(s: seq<real>) { forall i :: 0 <= i < |s| ==> s[i] >= 0.0 }

  ghost predicate Ascending(s: seq<real>) {
    forall i, j :: 0 <= i < j < |s| ==> s[i] <= s[j]
  }

  /** In an ascending run of non-negative samples, the low buckets are a prefix. */
  lemma {:induction false} CountAscending(s: seq<real>, hi: int, r: nat)
    requires Ascending(s) && AllNonNegative(s)
    requires 1 <= r <= |s|
    ensures Count(s, 0, hi) >= r <==> BucketIndex(s[r - 1]) < hi
  {
    var last := |s| - 1;
    if BucketIndex(s[last]) < hi {
      CountAll(s, hi);
      IndexMonotone(s[r - 1], s[last]);
    } else if r < |s| {
      CountAscending(s[..last], hi, r);
    }
  }

  lemma {:induction false} CountAll(s: seq<real>, hi: int)
    requires Ascending(s) && AllNonNegative(s)
    requires s == [] || BucketIndex(s[|s| - 1]) < hi
    ensures Count(s, 0, hi) == |s|
  {
    if |s| > 1 {
      IndexMonotone(s[|s| - 2], s[|s| - 1]);
      CountAll(s[..|s| - 1], hi);
    }
  }

  // ---------------------------------------------------------------- what a run leaves behind

  /** No bucket has been given 2^32 samples. */
  ghost predicate NoWrap(samples: seq<real>) { NoneWrapped(samples, Slot, BUCKETS, WIDTH) }

  lemma BumpOnce(counts: seq<uint32>, i: nat)
    requires i < |counts|
    ensures Bump(counts, i, 1) == BumpAt(counts, i, WIDTH)
  {
    var c: nat := counts[i];
    assert Low32(c + 1) == Bumped(c, WIDTH);
  }

  lemma RecordBumps(s: State, ns: real, slot: int)
    requires |s.counts| == BUCKETS && slot == Slot(ns)
    ensures RecordOne(s, ns).counts == BumpAt(s.counts, slot, WIDTH)
  {
    if ns >= 0.0 { BumpOnce(s.counts, slot); }
  }

  /** The counters are a bank keyed by bucket. */
  lemma {:induction false} RunBank(samples: seq<real>)
    ensures Run(samples).counts == Bank(samples, Slot, BUCKETS, WIDTH)
  {
    if samples != [] {
      var before, ns := samples[..|samples| - 1], samples[|samples| - 1];
      RunBank(before);
      RecordBumps(Run(before), ns, Slot(ns));
    }
  }

  lemma {:induction false} WrappedIsRemainder(n: nat)
    ensures Wrapped(n, WIDTH) == Low32(n)
  {
    if n > 0 { WrappedIsRemainder(n - 1); }
  }

  /** A counter holds the number of its samples modulo 2^32. */
  lemma RunCounts(samples: seq<real>, i: nat)
    requires i < BUCKETS
    ensures Run(samples).counts[i] == Low32(HitsAt(samples, Slot, i))
  {
    RunBank(samples);
    BankAt(samples, Slot, BUCKETS, WIDTH, i);
    WrappedIsRemainder(HitsAt(samples, Slot, i));
  }

  /** Every sample is counted once, as recorded or as negative. */
  lemma {:induction false} RunTotals(samples: seq<real>)
    ensures var s := Run(samples);
      s.total == s.recorded == Count(samples, 0, BUCKETS) && s.total + s.negative == |samples|
    ensures Run(samples).min.None? <==> Run(samples).total == 0
  {
    if samples != [] { RunTotals(samples[..|samples| - 1]); }
  }

  /** The maximum kept is the largest non-negative sample. */
  lemma {:induction false} RunMax(samples: seq<real>)
    ensures var s := Run(samples);
      && (forall i :: 0 <= i < |samples| ==> samples[i] <= s.max)
      && (s.max == 0.0 || s.max in samples) && s.max >= 0.0
  {
    if samples != [] {
      var before := samples[..|samples| - 1];
      RunMax(before);
      forall i | 0 <= i < |samples| ensures samples[i] <= Run(samples).max {
        if i < |before| { assert samples[i] == before[i]; }
      }
    }
  }

  /** `m` is the smallest non-negative sample, if there is one. */
  ghost predicate IsLeast(samples: seq<real>, m: Option<real>) {
    && (m.Some? ==> m.value in samples && m.value >= 0.0)
    && (forall x :: x in samples && x >= 0.0 ==> m.Some? && m.value <= x)
  }

  lemma LeastNext(samples: seq<real>, m: Option<real>, ns: real, next: Option<real>)
    requires IsLeast(samples, m)
    requires next == if ns >= 0.0 && (m.None? || ns < m.value) then Some(ns) else m
    ensures IsLeast(samples + [ns], next)
  {
  }

  /** The minimum kept is the smallest non-negative sample. */
  lemma {:induction false} RunMin(samples: seq<real>)
    ensures IsLeast(samples, Run(samples).min)
  {
    if samples != [] {
      var before, ns := samples[..|samples| - 1], samples[|samples| - 1];
      RunMin(before);
      LeastNext(before, Run(before).min, ns, Run(samples).min);
      assert samples == before + [ns];
    }
  }

  /** What the non-negative samples add up to. */
  ghost function SumOf(samples: seq<real>): (x: real) {
    if samples == [] then 0.0
    else
      var last := samples[|samples| - 1];
      SumOf(samples[..|samples| - 1]) + if last >= 0.0 then last else 0.0
  }

  lemma {:induction false} RunSum(samples: seq<real>)
    ensures Run(samples).sum == SumOf(samples)
  {
    if samples != [] { RunSum(samples[..|samples| - 1]); }
  }

  /** The first counters add up to their samples exactly when none of them has wrapped. */
  lemma PrefixSum(samples: seq<real>, n: nat)
    requires n <= BUCKETS
    ensures Sum(Run(samples).counts[..n]) <= Count(samples, 0, n)
    ensures Sum(Run(samples).counts[..n]) == Count(samples, 0, n) <==> NoneWrapped(samples, Slot, n, WIDTH)
  {
    RunBank(samples);
    PartialSum(samples, Slot, BUCKETS, WIDTH, n);
  }

  /** The counters add up to the total exactly when none of them has wrapped. */
  lemma TotalIsSum(samples: seq<real>)
    ensures Sum(Run(samples).counts) == Run(samples).total <==> NoWrap(samples)
  {
    var counts := Run(samples).counts;
    assert counts[..BUCKETS] == counts;
    PrefixSum(samples, BUCKETS);
    RunTotals(samples);
  }

  // ---------------------------------------------------------------- percentiles

  lemma RankInRange(q: real, total: nat)
    requires 0.0 < q <= 1.0 && total > 0
    ensures 1 <= Rank(q, total) <= total
  {
    assert q * total as real <= total as real;
  }

  /** The rank is the least positive integer that is not below `q * total`. */
  lemma RankExact(q: real, total: nat)
    ensures Rank(q, total) >= 1 && q * total as real <= Rank(q, total) as real
    ensures Rank(q, total) == 1 || (Rank(q, total) - 1) as real < q * total as real
  {
  }

  ghost function Recorded(): (p: real -> bool) { s => 0.0 <= s }

  ghost function UpTo(x: real): (p: real -> bool) { s => 0.0 <= s <= x }

  ghost function Under(x: real): (p: real -> bool) { s => 0.0 <= s < x }

  ghost predicate AtLevel(samples: seq<real>, level: real, x: real) {
    && x in samples && x >= 0.0
    && NumberOf(samples, Under(x)) as real < level <= NumberOf(samples, UpTo(x)) as real
  }

  /**
   The sample at the quantile `q`, by counting: at least `q` of the samples are
   no larger than `x`, and less than `q` of them are smaller.
   */
  ghost predicate NearestRank(samples: seq<real>, q: real, x: real) {
    AtLevel(samples, q * NumberOf(samples, Recorded()) as real, x)
  }

  lemma CountsOfSorted(samples: seq<real>, sorted: seq<real>, x: real)
    requires SortedRun(sorted, samples)
    ensures NumberOf(samples, Recorded()) == |sorted|
    ensures NumberOf(samples, UpTo(x)) == NumberOf(sorted, UpTo(x))
    ensures NumberOf(samples, Under(x)) == NumberOf(sorted, Under(x))
  {
    var kept := NonNegative(samples);
    NumberOfKept(samples, Slot, Recorded());
    NumberOfKept(samples, Slot, UpTo(x));
    NumberOfKept(samples, Slot, Under(x));
    NumberOfPermutation(kept, sorted, Recorded());
    NumberOfPermutation(kept, sorted, UpTo(x));
    NumberOfPermutation(kept, sorted, Under(x));
    NumberAtLeast(sorted, Recorded(), |sorted|);
  }

  /** There is one such sample, and sorting finds it. */
  lemma NearestRankSorted(samples: seq<real>, sorted: seq<real>, q: real, x: real)
    requires SortedRun(sorted, samples) && sorted != [] && 0.0 < q <= 1.0
    ensures NearestRank(samples, q, x) <==> x == SampleAt(sorted, q)
  {
    var y := SampleAt(sorted, q);
    RankedSample(samples, sorted, q);
    if NearestRank(samples, q, x) && x != y { OnlyOne(samples, q, x, y); }
  }

  lemma RankedSample(samples: seq<real>, sorted: seq<real>, q: real)
    requires SortedRun(sorted, samples) && sorted != [] && 0.0 < q <= 1.0
    ensures NearestRank(samples, q, SampleAt(sorted, q))
  {
    var n := |sorted|;
    CountsOfSorted(samples, sorted, 0.0);
    LevelOfRank(q, n, q * n as real);
    LevelSample(samples, sorted, q * n as real, Rank(q, n));
    AtQuantile(samples, q, n, q * n as real, SampleAt(sorted, q));
  }

  lemma LevelOfRank(q: real, n: nat, level: real)
    requires 0.0 < q <= 1.0 && n > 0 && level == q * n as real
    ensures 1 <= Rank(q, n) <= n && (Rank(q, n) - 1) as real < level <= Rank(q, n) as real
  {
    RankInRange(q, n);
    RankExact(q, n);
    assert level > 0.0;
  }

  lemma AtQuantile(samples: seq<real>, q: real, n: nat, level: real, x: real)
    requires n == NumberOf(samples, Recorded()) && level == q * n as real && AtLevel(samples, level, x)
    ensures NearestRank(samples, q, x)
  {
  }

  lemma LevelSample(samples: seq<real>, sorted: seq<real>, level: real, rank: nat)
    requires SortedRun(sorted, samples) && 1 <= rank <= |sorted|
    requires (rank - 1) as real < level <= rank as real
    ensures AtLevel(samples, level, sorted[rank - 1])
  {
    var x := sorted[rank - 1];
    CountsOfSorted(samples, sorted, x);
    SortedMembers(samples, sorted, x);
    NumberAtLeast(sorted, UpTo(x), rank);
    NumberAtMost(sorted, Under(x), rank - 1);
  }

  lemma OnlyOne(samples: seq<real>, q: real, x: real, y: real)
    requires NearestRank(samples, q, x) && NearestRank(samples, q, y)
    ensures x == y
  {
    NumberOfImplied(samples, UpTo(x), if x < y then Under(y) else UpTo(x));
    NumberOfImplied(samples, UpTo(y), if y < x then Under(x) else UpTo(y));
  }

  /** The scan stops at the bucket where the running sum passes `rank`, if there is one. */
  lemma {:induction false} ScanStops(counts: seq<uint32>, i: nat, rank: nat)
    requires i <= |counts| && Sum(counts[..i]) < rank
    ensures var r := FirstReaching(counts, i, Sum(counts[..i]), rank);
      && (r.Some? ==> Sum(counts[..r.value]) < rank <= Sum(counts[..r.value + 1]))
      && (r.None? ==> Sum(counts) < rank)
    decreases |counts| - i
  {
    if i == |counts| {
      assert counts[..i] == counts;
    } else {
      assert counts[..i + 1][..i] == counts[..i];
      if Sum(counts[..i]) + counts[i] < rank { ScanStops(counts, i + 1, rank); }
    }
  }

  lemma ScanFromZero(samples: seq<real>, rank: nat)
    requires rank >= 1
    ensures var counts := Run(samples).counts;
      var r := FirstReaching(counts, 0, 0, rank);
      && (r.Some? ==> Sum(counts[..r.value]) < rank <= Sum(counts[..r.value + 1]))
      && (r.None? ==> Sum(counts) < rank)
  {
    var counts := Run(samples).counts;
    assert Sum(counts[..0]) == 0;
    ScanStops(counts, 0, rank);
  }

  lemma RankPoint(samples: seq<real>, sorted: seq<real>, rank: nat)
    requires 1 <= rank <= |sorted| && Ascending(sorted) && AllNonNegative(sorted)
    requires forall hi :: Count(sorted, 0, hi) == Count(samples, 0, hi)
    ensures forall hi :: Count(samples, 0, hi) >= rank <==> BucketIndex(sorted[rank - 1]) < hi
  {
    forall hi ensures Count(samples, 0, hi) >= rank <==> BucketIndex(sorted[rank - 1]) < hi {
      CountAscending(sorted, hi, rank);
      assert Count(sorted, 0, hi) == Count(samples, 0, hi);
    }
  }

  ghost function NonNegative(samples: seq<real>): (r: seq<real>) { Kept(samples, Slot) }

  /** `sorted` lists the non-negative samples in ascending order. */
  ghost predicate SortedRun(sorted: seq<real>, samples: seq<real>) {
    Ascending(sorted) && AllNonNegative(sorted) && multiset(sorted) == multiset(NonNegative(samples))
  }

  lemma SortedRunFacts(samples: seq<real>, sorted: seq<real>)
    requires SortedRun(sorted, samples)
    ensures |sorted| == Run(samples).total
    ensures forall hi :: Count(sorted, 0, hi) == Count(samples, 0, hi)
  {
    assert |multiset(sorted)| == |multiset(NonNegative(samples))|;
    RunTotals(samples);
    HitsAll(samples, Slot, BUCKETS);
    forall hi ensures Count(sorted, 0, hi) == Count(samples, 0, hi) {
      HitsPermutation(sorted, NonNegative(samples), Slot, 0, hi);
      HitsKept(samples, Slot, 0, hi);
    }
  }

  /** What the samples and their sorted run say about a rank. */
  ghost predicate AtRank(samples: seq<real>, sorted: seq<real>, rank: nat) {
    SortedRun(sorted, samples) && 1 <= rank <= |sorted|
  }

  /** The bucket of the exact sample is where the running count passes the rank. */
  lemma RankBucket(samples: seq<real>, sorted: seq<real>, rank: nat)
    requires AtRank(samples, sorted, rank)
    ensures var t := BucketIndex(sorted[rank - 1]);
      Count(samples, 0, t) < rank <= Count(samples, 0, t + 1) && t <= BucketIndex(sorted[|sorted| - 1])
  {
    SortedRunFacts(samples, sorted);
    RankPoint(samples, sorted, rank);
    IndexMonotone(sorted[rank - 1], sorted[|sorted| - 1]);
  }

  lemma EmptyAbove(samples: seq<real>, k: nat, n: nat)
    requires k < BUCKETS && Count(samples, 0, k) >= n && Count(samples, 0, BUCKETS) == n
    ensures Run(samples).counts[k] == 0
  {
    HitsSplit(samples, Slot, 0, k, k + 1);
    HitsSplit(samples, Slot, 0, k + 1, BUCKETS);
    RunCounts(samples, k);
  }

  /** The last bucket in use: nothing was counted above it. */
  lemma NothingAbove(samples: seq<real>, sorted: seq<real>, k: nat)
    requires SortedRun(sorted, samples) && sorted != []
    requires BucketIndex(sorted[|sorted| - 1]) < k < BUCKETS
    ensures Run(samples).counts[k] == 0
  {
    SortedRunFacts(samples, sorted);
    RankPoint(samples, sorted, |sorted|);
    RunTotals(samples);
    EmptyAbove(samples, k, |sorted|);
  }

  /** A wrapped counter does no harm if it is the last one in use and its bucket reports the largest sample. */
  ghost predicate Harmless(samples: seq<real>, last: real) {
    forall i :: 0 <= i < BUCKETS && HitsAt(samples, Slot, i) >= WIDTH ==>
      last >= 0.0 && i == BucketIndex(last) && last == BucketValue(i)
  }

  lemma NoWrapIsHarmless(samples: seq<real>, last: real)
    requires NoWrap(samples)
    ensures Harmless(samples, last)
  {
  }

  /** If the counters up to the exact bucket are intact, the scan stops there. */
  lemma ScanFinds(samples: seq<real>, sorted: seq<real>, rank: nat)
    requires AtRank(samples, sorted, rank)
    requires NoneWrapped(samples, Slot, BucketIndex(sorted[rank - 1]) + 1, WIDTH)
    ensures FirstReaching(Run(samples).counts, 0, 0, rank) == Some(BucketIndex(sorted[rank - 1]))
  {
    var t, counts := BucketIndex(sorted[rank - 1]), Run(samples).counts;
    RankBucket(samples, sorted, rank);
    PrefixSum(samples, t);
    PrefixSum(samples, t + 1);
    ScanFromZero(samples, rank);
    OnlyStop(counts, rank, t);
  }

  lemma OnlyStop(counts: seq<uint32>, rank: nat, t: nat)
    requires t < |counts| && Sum(counts[..t]) < rank <= Sum(counts[..t + 1])
    ensures forall k :: 0 <= k < |counts| && Sum(counts[..k]) < rank <= Sum(counts[..k + 1]) ==> k == t
    ensures rank <= Sum(counts)
  {
    forall k | 0 <= k < |counts| && Sum(counts[..k]) < rank <= Sum(counts[..k + 1]) ensures k == t {
      if k < t { SumPrefixes(counts, k + 1, t); }
      if t < k { SumPrefixes(counts, t + 1, k); }
    }
    SumPrefixes(counts, t + 1, |counts|);
    assert counts[..|counts|] == counts;
  }

  lemma NoLaterStop(counts: seq<uint32>, rank: nat, t: nat)
    requires t < |counts| && Sum(counts[..t]) < rank && forall k :: t < k < |counts| ==> counts[k] == 0
    ensures forall k :: 0 <= k < |counts| && Sum(counts[..k]) < rank <= Sum(counts[..k + 1]) ==> k == t
  {
    forall k | 0 <= k < |counts| && Sum(counts[..k]) < rank <= Sum(counts[..k + 1]) ensures k == t {
      if k < t { SumPrefixes(counts, k + 1, t); }
      if t < k { SumFlat(counts, k, k + 1); }
    }
  }

  /** If only the counter of the last bucket in use has wrapped, the scan stops there or not at all. */
  lemma ScanFindsLast(samples: seq<real>, sorted: seq<real>, rank: nat)
    requires AtRank(samples, sorted, rank)
    requires BucketIndex(sorted[rank - 1]) == BucketIndex(sorted[|sorted| - 1])
    requires NoneWrapped(samples, Slot, BucketIndex(sorted[rank - 1]), WIDTH)
    ensures FirstReaching(Run(samples).counts, 0, 0, rank) in {None, Some(BucketIndex(sorted[rank - 1]))}
  {
    var t, counts := BucketIndex(sorted[rank - 1]), Run(samples).counts;
    RankBucket(samples, sorted, rank);
    PrefixSum(samples, t);
    ScanFromZero(samples, rank);
    forall k | t < k < BUCKETS ensures counts[k] == 0 { NothingAbove(samples, sorted, k); }
    NoLaterStop(counts, rank, t);
  }

  lemma ScanMisses(samples: seq<real>, rank: nat)
    requires rank > Run(samples).total
    ensures FirstReaching(Run(samples).counts, 0, 0, rank) == None
  {
    var counts := Run(samples).counts;
    var r := FirstReaching(counts, 0, 0, rank);
    ScanFromZero(samples, rank);
    RunTotals(samples);
    PrefixSum(samples, BUCKETS);
    assert counts[..BUCKETS] == counts;
    if r.Some? { SumPrefixes(counts, r.value + 1, BUCKETS); }
  }

  /**
   A percentile is the representative of the bucket of the exact nearest-rank
   sample; past the last rank it is the largest sample itself.
   */
  lemma PercentileRefinesSorting(samples: seq<real>, sorted: seq<real>, q: real)
    requires SortedRun(sorted, samples) && sorted != [] && Harmless(samples, sorted[|sorted| - 1])
    ensures var rank := Rank(q, |sorted|);
      Percentile(Run(samples), q) ==
        if rank <= |sorted| then BucketValue(BucketIndex(sorted[rank - 1])) else sorted[|sorted| - 1]
    ensures 0.0 < q <= 1.0 ==>
      forall x :: NearestRank(samples, q, x) ==> Percentile(Run(samples), q) == BucketValue(BucketIndex(x))
  {
    PercentileAtRank(samples, sorted, q);
    if 0.0 < q <= 1.0 {
      RankInRange(q, |sorted|);
      forall x ensures NearestRank(samples, q, x) <==> x == SampleAt(sorted, q) {
        NearestRankSorted(samples, sorted, q, x);
      }
    }
  }

  lemma PercentileAtRank(samples: seq<real>, sorted: seq<real>, q: real)
    requires SortedRun(sorted, samples) && sorted != [] && Harmless(samples, sorted[|sorted| - 1])
    ensures var rank := Rank(q, |sorted|);
      Percentile(Run(samples), q) ==
        if rank <= |sorted| then BucketValue(BucketIndex(sorted[rank - 1])) else sorted[|sorted| - 1]
  {
    SortedRunFacts(samples, sorted);
    var rank := Rank(q, |sorted|);
    LargestSample(samples, sorted);
    if rank > |sorted| {
      ScanMisses(samples, rank);
    } else {
      var t, last := BucketIndex(sorted[rank - 1]), BucketIndex(sorted[|sorted| - 1]);
      RankBucket(samples, sorted, rank);
      assert NoneWrapped(samples, Slot, t, WIDTH);
      if HitsAt(samples, Slot, t) < WIDTH {
        ScanFinds(samples, sorted, rank);
      } else {
        ScanFindsLast(samples, sorted, rank);
      }
    }
  }

  /** A wrapped counter that is not harmless: the rank of its bucket's last sample is answered elsewhere. */
  lemma WrapMissesRank(samples: seq<real>, sorted: seq<real>, i: nat) returns (rank: nat)
    requires SortedRun(sorted, samples) && sorted != []
    requires i < BUCKETS && HitsAt(samples, Slot, i) >= WIDTH && sorted[|sorted| - 1] != BucketValue(i)
    ensures 1 <= rank <= |sorted|
    ensures ValueAtRank(Run(samples), rank) != BucketValue(BucketIndex(sorted[rank - 1]))
  {
    var counts := Run(samples).counts;
    rank := Count(samples, 0, i + 1);
    SortedRunFacts(samples, sorted);
    RunTotals(samples);
    HitsSplit(samples, Slot, 0, i, i + 1);
    HitsSplit(samples, Slot, 0, i + 1, BUCKETS);
    RankPoint(samples, sorted, rank);
    assert BucketIndex(sorted[rank - 1]) == i by {
      assert Count(samples, 0, i + 1) >= rank;
      assert !(Count(samples, 0, i) >= rank);
    }
    PrefixSum(samples, i + 1);
    assert !NoneWrapped(samples, Slot, i + 1, WIDTH);
    ScanFromZero(samples, rank);
    LargestSample(samples, sorted);
    var r := FirstReaching(counts, 0, 0, rank);
    if r.Some? {
      if r.value <= i { SumPrefixes(counts, r.value + 1, i + 1); }
      IndexOfValue(r.value);
      IndexOfValue(i);
    }
  }

  lemma RankOfFraction(rank: nat, total: nat) returns (q: real)
    requires 1 <= rank <= total
    ensures 0.0 < q <= 1.0 && Rank(q, total) == rank
  {
    q := rank as real / total as real;
    assert q * total as real == rank as real;
    QuotientInUnit(rank as real, total as real);
  }

  lemma QuotientInUnit(a: real, b: real)
    requires 0.0 < a <= b
    ensures 0.0 < a / b <= 1.0
  {
  }

  /** Every quantile is answered by the bucket of its sample exactly when every wrapped counter is harmless. */
  lemma PercentilesExact(samples: seq<real>, sorted: seq<real>)
    requires SortedRun(sorted, samples) && sorted != []
    ensures (forall q, x :: 0.0 < q <= 1.0 && NearestRank(samples, q, x) ==>
               Percentile(Run(samples), q) == BucketValue(BucketIndex(x)))
      <==> Harmless(samples, sorted[|sorted| - 1])
  {
    if Harmless(samples, sorted[|sorted| - 1]) {
      forall q, x | 0.0 < q <= 1.0 && NearestRank(samples, q, x)
        ensures Percentile(Run(samples), q) == BucketValue(BucketIndex(x))
      {
        PercentileRefinesSorting(samples, sorted, q);
      }
    } else {
      var q := HarmDone(samples, sorted);
      RankedSample(samples, sorted, q);
    }
  }

  /** A quantile that a harmful counter answers wrongly. */
  lemma HarmDone(samples: seq<real>, sorted: seq<real>) returns (q: real)
    requires SortedRun(sorted, samples) && sorted != [] && !Harmless(samples, sorted[|sorted| - 1])
    ensures 0.0 < q <= 1.0 && Percentile(Run(samples), q) != BucketValue(BucketIndex(SampleAt(sorted, q)))
  {
    var last := sorted[|sorted| - 1];
    var i :| 0 <= i < BUCKETS && HitsAt(samples, Slot, i) >= WIDTH
      && !(i == BucketIndex(last) && last == BucketValue(i));
    IndexOfValue(i);
    var rank := WrapMissesRank(samples, sorted, i);
    q := RankOfFraction(rank, |sorted|);
    SortedRunFacts(samples, sorted);
  }

  /** The exact nearest-rank sample. */
  ghost function SampleAt(sorted: seq<real>, q: real): (x: real)
    requires sorted != []
    ensures x in sorted
  {
    var rank := Rank(q, |sorted|);
    if rank <= |sorted| then sorted[rank - 1] else sorted[|sorted| - 1]
  }

  lemma SortedMembers(samples: seq<real>, sorted: seq<real>, x: real)
    requires SortedRun(sorted, samples)
    ensures x in sorted <==> x in samples && x >= 0.0
  {
    KeptMembers(samples, Slot, x);
    assert x in sorted <==> x in multiset(sorted);
    assert x in NonNegative(samples) <==> x in multiset(NonNegative(samples));
  }

  lemma LargestSample(samples: seq<real>, sorted: seq<real>)
    requires SortedRun(sorted, samples) && sorted != []
    ensures Run(samples).max == sorted[|sorted| - 1]
  {
    var max, last := Run(samples).max, sorted[|sorted| - 1];
    SortedMembers(samples, sorted, last);
    SortedMembers(samples, sorted, max);
    MaxBounds(samples, last, max);
  }

  lemma MaxBounds(samples: seq<real>, x: real, max: real)
    requires x in samples && x >= 0.0 && max == Run(samples).max
    ensures x <= max && (max == x || max in samples)
  {
    RunMax(samples);
  }

  /** For integer samples below 2^46, every quantile is within the claimed error of its sample. */
  lemma PercentileAccuracy(samples: seq<real>, sorted: seq<real>, q: real, x: real)
    requires SortedRun(sorted, samples) && sorted != [] && 0.0 < q <= 1.0
    requires Harmless(samples, sorted[|sorted| - 1])
    requires forall i :: 0 <= i < |samples| ==>
      samples[i] == samples[i].Floor as real && samples[i] < 0x4000_0000_0000 as real
    requires NearestRank(samples, q, x)
    ensures Distance(Percentile(Run(samples), q), x) <= QuantizationNs(x)
    ensures x < 256.0 ==> Percentile(Run(samples), q) == x
  {
    PercentileRefinesSorting(samples, sorted, q);
    SampleAccuracy(x);
  }

  /** Without a sample to rank, every quantile is zero. */
  lemma NothingToRank(samples: seq<real>, q: real)
    requires forall i :: 0 <= i < |samples| ==> samples[i] < 0.0
    ensures Percentile(Run(samples), q) == 0.0
  {
    RunTotals(samples);
    NothingHit(samples);
  }

  lemma {:induction false} NothingHit(samples: seq<real>)
    requires forall i :: 0 <= i < |samples| ==> samples[i] < 0.0
    ensures Count(samples, 0, BUCKETS) == 0
  {
    if samples != [] { NothingHit(samples[..|samples| - 1]); }
  }

  lemma SampleAccuracy(x: real)
    requires 0.0 <= x < 0x4000_0000_0000 as real && x == x.Floor as real
    ensures Distance(BucketValue(BucketIndex(x)), x) <= QuantizationNs(x)
    ensures x < 256.0 ==> BucketValue(BucketIndex(x)) == x
  {
    if x < 256.0 { SmallIntegerExact(x.Floor); } else { QuantizationBound(x); }
  }

  // ---------------------------------------------------------------- wrap-around

  /** 2^32 zero samples wrap their counter to zero, and the conservation law is lost. */
  lemma WrapLosesSamples()
    ensures var samples := Repeat(WIDTH, 0.0);
      Run(samples).total == WIDTH && Run(samples).counts[0] == 0 && Sum(Run(samples).counts) != Run(samples).total
  {
    var samples := Repeat(WIDTH, 0.0);
    HitsRepeated(WIDTH, 0.0, Slot, 0, 1);
    HitsRepeated(WIDTH, 0.0, Slot, 0, BUCKETS);
    RunCounts(samples, 0);
    RunTotals(samples);
    TotalIsSum(samples);
    assert !NoWrap(samples) by { assert HitsAt(samples, Slot, 0) == WIDTH; }
  }

  lemma AscendingRun(n: nat)
    ensures var samples := Repeat(n, 0.0) + [1.0];
      SortedRun(samples, samples)
  {
    var samples := Repeat(n, 0.0) + [1.0];
    KeptWhole(samples);
  }

  lemma {:induction false} KeptWhole(samples: seq<real>)
    requires AllNonNegative(samples)
    ensures NonNegative(samples) == samples
  {
    if samples != [] {
      KeptWhole(samples[..|samples| - 1]);
      assert samples == samples[..|samples| - 1] + [samples[|samples| - 1]];
    }
  }

  lemma WrappedPair(samples: seq<real>)
    requires samples == Repeat(WIDTH, 0.0) + [1.0]
    ensures SortedRun(samples, samples) && Run(samples).total == WIDTH + 1 && Run(samples).max == 1.0
    ensures Sum(Run(samples).counts) == 1
  {
    var counts := Run(samples).counts;
    AscendingRun(WIDTH);
    SortedRunFacts(samples, samples);
    LargestSample(samples, samples);
    PairHits(samples, 0);
    PairHits(samples, 1);
    RunCounts(samples, 0);
    RunCounts(samples, 1);
    forall k | 2 <= k < BUCKETS ensures counts[k] == 0 { NothingAbove(samples, samples, k); }
    SumOfPair(counts);
  }

  lemma SumOfPair(counts: seq<uint32>)
    requires |counts| >= 2 && counts[0] == 0 && counts[1] == 1 && forall k :: 2 <= k < |counts| ==> counts[k] == 0
    ensures Sum(counts) == 1
  {
    assert counts[..2] == [0, 1] && [0, 1][..1] == [0] && [0][..0] == [];
    SumFlat(counts, 2, |counts|);
    assert counts[..|counts|] == counts;
  }

  lemma PairHits(samples: seq<real>, i: nat)
    requires samples == Repeat(WIDTH, 0.0) + [1.0] && i < 2
    ensures HitsAt(samples, Slot, i) == if i == 0 then WIDTH else 1
  {
    HitsConcat(Repeat(WIDTH, 0.0), [1.0], Slot, i, i + 1);
    HitsRepeated(WIDTH, 0.0, Slot, i, i + 1);
    assert [1.0][..0] == [];
  }

  /** 2^32 samples of 0 and one of 1: the median is 0, and the histogram says 1. */
  lemma WrapMovesPercentile()
    ensures var samples := Repeat(WIDTH, 0.0) + [1.0];
      NearestRank(samples, 0.5, 0.0) && Percentile(Run(samples), 0.5) == 1.0
  {
    var samples := Repeat(WIDTH, 0.0) + [1.0];
    WrappedPair(samples);
    assert 0.5 * 4294967297.0 == 2147483648.5;
    assert Rank(0.5, |samples|) == 2147483649;
    NearestRankSorted(samples, samples, 0.5, 0.0);
    ScanFromZero(samples, 2147483649);
    var counts := Run(samples).counts;
    var r := FirstReaching(counts, 0, 0, 2147483649);
    assert counts[..BUCKETS] == counts;
    if r.Some? { SumPrefixes(counts, r.value + 1, BUCKETS); }
  }

  // ---------------------------------------------------------------- sparse JSON

  datatype Bucket = Bucket(index: int, count: nat)

  datatype Json = Json(
    subBits: int,
    maxOctave: int,
    buckets: seq<Bucket>,
    count: nat,
    recordedTotal: nat,
    negative: nat,
    minNs: real,
    maxNs: real,
    sumNs: real)

  datatype JsonError = BucketingMismatch | IndexOutOfRange(index: int)

  /** The non-empty buckets from index `i` on. */
  function Sparse(counts: seq<uint32>, i: nat): (b: seq<Bucket>)
    requires i <= |counts|
    decreases |counts| - i
  {
    if i == |counts| then []
    else (if counts[i] > 0 then [Bucket(i, counts[i])] else []) + Sparse(counts, i + 1)
  }

  function ToJson(s: State): (j: Json) {
    Json(8, 45, Sparse(s.counts, 0), s.total,
         if s.recorded > s.total then s.recorded else s.total, s.negative,
         if s.total == 0 || s.min.None? then 0.0 else s.min.value, s.max, s.sum)
  }

  datatype Loaded = Loaded(counts: seq<uint32>, total: nat)

  function Load(buckets: seq<Bucket>, l: Loaded): (r: Result<Loaded, JsonError>)
    requires |l.counts| == BUCKETS
    ensures r.Ok? ==> |r.value.counts| == BUCKETS
    decreases |buckets|
  {
    if buckets == [] then Ok(l)
    else
      var b := buckets[0];
      if b.index < 0 || b.index >= BUCKETS then Err(IndexOutOfRange(b.index))
      else Load(buckets[1..], Loaded(Bump(l.counts, b.index, b.count), l.total + b.count))
  }

  function FromJson(j: Json): (r: Result<State, JsonError>)
    ensures r.Ok? ==> |r.value.counts| == BUCKETS
  {
    if j.subBits != 8 || j.maxOctave != 45 then Err(BucketingMismatch)
    else match Load(j.buckets, Loaded(Repeat(BUCKETS, 0), 0))
      case Err(e) => Err(e)
      case Ok(l) => Ok(State(l.counts, l.total, j.recordedTotal, j.negative,
                             if l.total == 0 then None else Some(j.minNs), j.maxNs, j.sumNs))
  }

  ghost predicate AscendingBuckets(b: seq<Bucket>, counts: seq<uint32>, lo: nat) {
    && (forall k :: 0 <= k < |b| ==> lo <= b[k].index < |counts| && b[k].count == counts[b[k].index] > 0)
    && (forall k, m :: 0 <= k < m < |b| ==> b[k].index < b[m].index)
  }

  lemma AscendingCons(b: Bucket, rest: seq<Bucket>, counts: seq<uint32>, i: nat)
    requires AscendingBuckets(rest, counts, i + 1)
    requires i < |counts| && b == Bucket(i, counts[i]) && counts[i] > 0
    ensures AscendingBuckets([b] + rest, counts, i)
  {
  }

  lemma AscendingSkip(rest: seq<Bucket>, counts: seq<uint32>, i: nat)
    requires i < |counts| && counts[i] == 0 && AscendingBuckets(rest, counts, i + 1)
    ensures AscendingBuckets(rest, counts, i)
  {
  }

  /** Sparse buckets are positive and strictly ascending. */
  lemma {:induction false} SparseAscending(counts: seq<uint32>, i: nat)
    requires i <= |counts|
    ensures AscendingBuckets(Sparse(counts, i), counts, i)
    decreases |counts| - i
  {
    if i < |counts| {
      SparseAscending(counts, i + 1);
      var rest := Sparse(counts, i + 1);
      if counts[i] > 0 {
        AscendingCons(Bucket(i, counts[i]), rest, counts, i);
      } else {
        AscendingSkip(rest, counts, i);
        assert Sparse(counts, i) == rest;
      }
    }
  }

  lemma LoadStep(b: Bucket, buckets: seq<Bucket>, rest: seq<Bucket>, l: Loaded, next: Loaded)
    requires |l.counts| == BUCKETS && 0 <= b.index < BUCKETS && buckets == [b] + rest
    requires next == Loaded(Bump(l.counts, b.index, b.count), l.total + b.count)
    ensures Load(buckets, l) == Load(rest, next)
  {
    assert buckets[1..] == rest;
  }

  /** Counters restored up to `i`, the rest still zero. */
  ghost function Partial(counts: seq<uint32>, i: nat): (l: Loaded)
    requires |counts| == BUCKETS && i <= BUCKETS
    ensures |l.counts| == BUCKETS
  {
    Loaded(counts[..i] + Repeat(BUCKETS - i, 0), Sum(counts[..i]))
  }

  lemma PartialNext(counts: seq<uint32>, i: nat)
    requires |counts| == BUCKETS && i < BUCKETS
    ensures var l := Partial(counts, i);
      Loaded(Bump(l.counts, i, counts[i]), l.total + counts[i]) == Partial(counts, i + 1)
    ensures counts[i] == 0 ==> Partial(counts, i) == Partial(counts, i + 1)
  {
    LoadNext(counts, i);
    assert counts[..i + 1][..i] == counts[..i];
  }

  /** Loading the sparse buckets restores the counters and sums them. */
  lemma {:induction false} LoadSparse(counts: seq<uint32>, i: nat)
    requires |counts| == BUCKETS && i <= BUCKETS
    ensures Load(Sparse(counts, i), Partial(counts, i)) == Ok(Loaded(counts, Sum(counts)))
    decreases BUCKETS - i
  {
    if i == BUCKETS {
      assert counts[..i] + Repeat(0, 0) == counts && counts[..i] == counts;
    } else {
      LoadSparse(counts, i + 1);
      PartialNext(counts, i);
      if counts[i] > 0 {
        LoadStep(
          Bucket(i, counts[i]), Sparse(counts, i), Sparse(counts, i + 1), Partial(counts, i), Partial(counts, i + 1));
      } else {
        assert Sparse(counts, i) == Sparse(counts, i + 1);
      }
    }
  }

  lemma LoadNext(counts: seq<uint32>, i: nat)
    requires |counts| == BUCKETS && i < BUCKETS
    ensures Bump(counts[..i] + Repeat(BUCKETS - i, 0), i, counts[i]) == counts[..i + 1] + Repeat(BUCKETS - i - 1, 0)
    ensures counts[i] == 0 ==> counts[..i] + Repeat(BUCKETS - i, 0) == counts[..i + 1] + Repeat(BUCKETS - i - 1, 0)
  {
    var a, b := Bump(counts[..i] + Repeat(BUCKETS - i, 0), i, counts[i]), counts[..i + 1] + Repeat(BUCKETS - i - 1, 0);
    assert a[i] == Low32(counts[i]) == counts[i];
    assert forall k :: 0 <= k < BUCKETS ==> a[k] == b[k];
  }

  lemma {:induction false} SparseMembers(counts: seq<uint32>, i: nat, b: Bucket)
    requires i <= |counts|
    ensures b in Sparse(counts, i) <==> i <= b.index < |counts| && b.count == counts[b.index] > 0
    decreases |counts| - i
  {
    if i < |counts| { SparseMembers(counts, i + 1, b); }
  }

  /** What the JSON of a run publishes, in terms of its samples. */
  lemma JsonPublishes(samples: seq<real>)
    ensures var j := ToJson(Run(samples));
      && j.subBits == 8 && j.maxOctave == 45
      && j.count == j.recordedTotal == NumberOf(samples, Recorded())
      && j.negative == |samples| - NumberOf(samples, Recorded())
      && (j.count > 0 ==> IsLeast(samples, Some(j.minNs))) && (j.count == 0 ==> j.minNs == 0.0)
      && j.maxNs >= 0.0 && (forall x :: x in samples ==> x <= j.maxNs) && (j.maxNs == 0.0 || j.maxNs in samples)
      && j.sumNs == SumOf(samples)
    ensures forall b :: b in ToJson(Run(samples)).buckets <==>
      0 <= b.index < BUCKETS && b.count == Low32(HitsAt(samples, Slot, b.index)) > 0
  {
    RunTotals(samples);
    RunMin(samples);
    RunMax(samples);
    RunSum(samples);
    RecordedCounted(samples);
    forall b ensures b in ToJson(Run(samples)).buckets <==>
      0 <= b.index < BUCKETS && b.count == Low32(HitsAt(samples, Slot, b.index)) > 0
    {
      SparseMembers(Run(samples).counts, 0, b);
      if 0 <= b.index < BUCKETS { RunCounts(samples, b.index); }
    }
  }

  lemma {:induction false} RecordedCounted(samples: seq<real>)
    ensures NumberOf(samples, Recorded()) == Run(samples).total
  {
    NumberOfExact(samples, Recorded());
    if samples != [] { RecordedCounted(samples[..|samples| - 1]); }
  }

  /** The counts given for one bucket. */
  ghost function GivenFor(buckets: seq<Bucket>, i: nat): (n: nat) {
    if buckets == [] then 0 else (if buckets[0].index == i then buckets[0].count else 0) + GivenFor(buckets[1..], i)
  }

  ghost function GivenInAll(buckets: seq<Bucket>): (n: nat) {
    if buckets == [] then 0 else buckets[0].count + GivenInAll(buckets[1..])
  }

  /** Loading adds up what is given. */
  lemma {:induction false} LoadAdds(buckets: seq<Bucket>, l: Loaded)
    requires |l.counts| == BUCKETS && Load(buckets, l).Ok?
    ensures var r := Load(buckets, l).value;
      && r.total == l.total + GivenInAll(buckets)
      && forall i :: 0 <= i < BUCKETS ==> r.counts[i] == Low32(l.counts[i] + GivenFor(buckets, i))
    decreases |buckets|
  {
    if buckets != [] {
      var b := buckets[0];
      var next := Loaded(Bump(l.counts, b.index, b.count), l.total + b.count);
      LoadAdds(buckets[1..], next);
      LoadExactStep(buckets, l, next);
    }
  }

  /** It fails exactly when an index lies outside, and reports the first such index. */
  lemma {:induction false} LoadRefuses(buckets: seq<Bucket>, l: Loaded)
    requires |l.counts| == BUCKETS
    ensures Load(buckets, l).Ok? <==> forall b :: b in buckets ==> 0 <= b.index < BUCKETS
    ensures Load(buckets, l).Err? ==> exists k :: OutOfRange(buckets, k, Load(buckets, l).error)
    decreases |buckets|
  {
    if buckets != [] {
      var b := buckets[0];
      if 0 <= b.index < BUCKETS {
        var next := Loaded(Bump(l.counts, b.index, b.count), l.total + b.count);
        LoadRefuses(buckets[1..], next);
        LoadRefusesStep(buckets, Load(buckets[1..], next));
      } else {
        assert OutOfRange(buckets, 0, IndexOutOfRange(b.index));
      }
    }
  }

  lemma LoadRefusesStep(buckets: seq<Bucket>, r: Result<Loaded, JsonError>)
    requires buckets != [] && 0 <= buckets[0].index < BUCKETS
    requires r.Err? ==> exists k :: OutOfRange(buckets[1..], k, r.error)
    ensures r.Err? ==> exists k :: OutOfRange(buckets, k, r.error)
    ensures (forall b :: b in buckets[1..] ==> 0 <= b.index < BUCKETS)
      <==> forall b :: b in buckets ==> 0 <= b.index < BUCKETS
  {
    assert buckets == [buckets[0]] + buckets[1..];
    if r.Err? {
      var k: nat :| OutOfRange(buckets[1..], k, r.error);
      assert OutOfRange(buckets, k + 1, r.error);
    }
  }

  ghost predicate OutOfRange(buckets: seq<Bucket>, k: nat, e: JsonError) {
    && k < |buckets| && e == IndexOutOfRange(buckets[k].index) && !(0 <= buckets[k].index < BUCKETS)
    && forall i :: 0 <= i < k ==> 0 <= buckets[i].index < BUCKETS
  }

  lemma LoadExactStep(buckets: seq<Bucket>, l: Loaded, next: Loaded)
    requires |l.counts| == BUCKETS && buckets != [] && 0 <= buckets[0].index < BUCKETS
    requires next == Loaded(Bump(l.counts, buckets[0].index, buckets[0].count), l.total + buckets[0].count)
    ensures forall i :: 0 <= i < BUCKETS ==>
      Low32(next.counts[i] + GivenFor(buckets[1..], i)) == Low32(l.counts[i] + GivenFor(buckets, i))
  {
    var b := buckets[0];
    forall i | 0 <= i < BUCKETS
      ensures Low32(next.counts[i] + GivenFor(buckets[1..], i)) == Low32(l.counts[i] + GivenFor(buckets, i))
    {
      if i == b.index { Low32Adds(l.counts[i] + b.count, GivenFor(buckets[1..], i)); }
    }
  }

  lemma Low32Adds(a: nat, b: nat)
    ensures Low32(Low32(a) + b) == Low32(a + b)
  {
  }

  /** What reading JSON yields: the bucketing must match, every index must lie within, and counts add up. */
  lemma FromJsonExact(j: Json)
    ensures match FromJson(j)
      case Ok(s) =>
        && j.subBits == 8 && j.maxOctave == 45 && (forall b :: b in j.buckets ==> 0 <= b.index < BUCKETS)
        && (forall i :: 0 <= i < BUCKETS ==> s.counts[i] == Low32(GivenFor(j.buckets, i)))
        && s.total == GivenInAll(j.buckets) && s.recorded == j.recordedTotal && s.negative == j.negative
        && s.min == (if s.total == 0 then None else Some(j.minNs)) && s.max == j.maxNs && s.sum == j.sumNs
      case Err(BucketingMismatch) => j.subBits != 8 || j.maxOctave != 45
      case Err(e) => j.subBits == 8 && j.maxOctave == 45 && exists k :: OutOfRange(j.buckets, k, e)
  {
    var start := Loaded(Repeat(BUCKETS, 0), 0);
    LoadRefuses(j.buckets, start);
    if Load(j.buckets, start).Ok? { LoadAdds(j.buckets, start); }
  }

  /** Reading back the JSON of a run restores its whole state exactly when no counter has wrapped. */
  lemma JsonRoundTrip(samples: seq<real>)
    ensures FromJson(ToJson(Run(samples))) == Ok(Run(samples)) <==> NoWrap(samples)
  {
    RunTotals(samples);
    LoadJson(Run(samples));
    TotalIsSum(samples);
  }

  /** Reading JSON back gives the same state, but with the total recomputed from the counters. */
  lemma LoadJson(s: State)
    requires |s.counts| == BUCKETS && s.recorded == s.total && (s.min.None? <==> s.total == 0)
    ensures FromJson(ToJson(s)) == Ok(s.(
      total := Sum(s.counts),
      min := if Sum(s.counts) == 0 then None else Some(ToJson(s).minNs)))
  {
    assert s.counts[..0] + Repeat(BUCKETS, 0) == Repeat(BUCKETS, 0);
    assert Partial(s.counts, 0) == Loaded(Repeat(BUCKETS, 0), 0);
    LoadSparse(s.counts, 0);
  }

  // ---------------------------------------------------------------- the class

  class LatencyHistogram {
    const counts: array<uint32>
    var total: nat
    var recorded: nat
    var negativeCount: nat
    var min: Option<real>
    var max: real
    var sum: real

    ghost predicate Valid()
      reads this
    {
      counts.Length == BUCKETS
    }

    function View(): (s: State)
      requires Valid()
      reads this, counts
      ensures |s.counts| == BUCKETS
    {
      State(counts[..], total, recorded, negativeCount, min, max, sum)
    }

    constructor ()
      ensures Valid() && fresh(counts) && View() == Empty()
    {
      counts := new uint32[BUCKETS](_ => 0);
      total, recorded, negativeCount := 0, 0, 0;
      min, max, sum := None, 0.0, 0.0;
      new;
      assert counts[..] == Repeat(BUCKETS, 0);
    }

    method Record(x: Sample)
      requires Valid()
      modifies this, counts
      ensures Valid() && View() == RecordOne(old(View()), Measured(x))
    {
      if x.NaN? || x.ns < 0.0 {
        negativeCount := negativeCount + 1;
        return;
      }
      var ns := x.ns;
      var i := BucketIndex(ns);
      var c: nat := counts[i];
      counts[i] := Low32(c + 1);
      total := total + 1;
      recorded := recorded + 1;
      sum := sum + ns;
      if min.None? || ns < min.value { min := Some(ns); }
      if ns > max { max := ns; }
    }

    method Quantile(q: real) returns (v: real)
      requires Valid()
      ensures v == Percentile(View(), q)
    {
      if total == 0 { return 0.0; }
      var rank := Rank(q, total);
      var seen: nat := 0;
      for i := 0 to BUCKETS
        invariant FirstReaching(counts[..], 0, 0, rank) == FirstReaching(counts[..], i, seen, rank)
      {
        seen := seen + counts[i];
        if seen >= rank { return BucketValue(i); }
      }
      return max;
    }

    method Export() returns (j: Json)
      requires Valid()
      ensures j == ToJson(View())
    {
      var buckets: seq<Bucket> := [];
      for i := 0 to BUCKETS
        invariant buckets + Sparse(counts[..], i) == Sparse(counts[..], 0)
      {
        var c := counts[i];
        if c > 0 {
          assert buckets + ([Bucket(i, c)] + Sparse(counts[..], i + 1))
              == buckets + [Bucket(i, c)] + Sparse(counts[..], i + 1);
          buckets := buckets + [Bucket(i, c)];
        }
      }
      j := Json(8, 45, buckets, total, if recorded > total then recorded else total,
                negativeCount, if total == 0 || min.None? then 0.0 else min.value, max, sum);
    }

    static method Import(j: Json) returns (r: Result<LatencyHistogram, JsonError>)
      ensures r.Err? ==> FromJson(j) == Err(r.error)
      ensures r.Ok? ==> fresh(r.value) && r.value.Valid() && FromJson(j) == Ok(r.value.View())
    {
      if j.subBits != 8 || j.maxOctave != 45 { return Err(BucketingMismatch); }
      var h := new LatencyHistogram();
      ghost var start := Loaded(Repeat(BUCKETS, 0), 0);
      for i := 0 to |j.buckets|
        invariant fresh(h) && fresh(h.counts) && h.Valid()
        invariant Load(j.buckets, start) == Load(j.buckets[i..], Loaded(h.counts[..], h.total))
      {
        var b := j.buckets[i];
        assert j.buckets[i..][1..] == j.buckets[i + 1..];
        if b.index < 0 || b.index >= BUCKETS { return Err(IndexOutOfRange(b.index)); }
        ghost var before := h.counts[..];
        var c: nat := h.counts[b.index];
        h.counts[b.index] := Low32(c + b.count);
        assert h.counts[..] == Bump(before, b.index, b.count);
        h.total := h.total + b.count;
      }
      h.recorded := j.recordedTotal;
      h.negativeCount := j.negative;
      h.min := if h.total == 0 then None else Some(j.minNs);
      h.max := j.maxNs;
      h.sum := j.sumNs;
      r := Ok(h);
    }

    /** Back to the empty histogram, in place. */
    method Reset()
      requires Valid()
      modifies this, counts
      ensures Valid() && View() == Empty()
    {
      forall i | 0 <= i < BUCKETS { counts[i] := 0; }
      total, recorded, negativeCount := 0, 0, 0;
      min, max, sum := None, 0.0, 0.0;
      assert counts[..] == Repeat(BUCKETS, 0);
    }
  }
}
