# Verified models of webtransport-bun's release and load tooling

webtransport-bun ships, beside its transport, a body of tooling that decides
whether a release candidate may be promoted, what evidence may be published, how
latency is measured, and how packets are steered or disturbed in tests. This
Dafny project models the logic of that tooling and proves what it promises, for
every input, run or interleaving.

`dafny verify dfyconfig.toml` checks the whole project.

| module | models |
|---|---|
| `TarFormat`, `TarCodec`, `Sorting` | the canonical ustar writer and the strict reader |
| `Buckets`, `Tally`, `Histogram` | the log-linear latency histogram and its sparse JSON |
| `Promotion` | promotion as writes to two files, interrupted anywhere |
| `Upload` | upload, read-back and withdrawal against a remote that cannot be trusted |
| `Steering` | the SK_REUSEPORT program that routes by connection ID, with its per-CPU counters |
| `Manifest`, `Claims` | merging evidence entries; the claim gate and its second implementation |
| `JsonValues`, `Text`, `Comebacks`, `Pointers`, `Privacy` | the evidence sanitizer, its checker, and JSON pointers |
| `Schemas`, `SchemaBounds`, `SchemaPointers`, `Content` | the recursive schema validator and the bundle allowlist |
| `OpaqueRun` | the scanner for encoded runs split up by separators |
| `FaultEngine` | the seeded UDP fault engine and the proxy's client binding |
| `CertPublishing` | publishing certificate generations, any number of processes interleaved |
| `Sessions` | splitting sessions over clients and servers |
| `Results`, `Sequences`, `Bytes`, `Arithmetic`, `Hashing` | `Option` and `Result`; slices, concatenations and sums; octets; powers of two and division; FNV-1a |

Loops, buffers and objects of the source are methods and classes here, each proved
against a function of its inputs or of the old state; the theorems are about those
functions.

## What turned out not to hold as stated

Each of these has a counterexample and an exact condition in the project.

- A bundle member of 8^11 bytes or more is written without complaint and never read
  back: the size field keeps the leading eleven octal digits
  (`TarCodec.RoundTrip`, `TarCodec.OversizeIsNotReadBack`). Two different bundles can then
  have the same bytes (`TarCodec.OversizeCollides`).
- Histogram counters are 32 bits wide. "Total equals the sum of the counts" and the
  JSON round trip hold exactly while no bucket has been given 2^32 samples
  (`Histogram.TotalIsSum`, `Histogram.JsonRoundTrip`, `Histogram.WrapLosesSamples`).
- Percentiles go wrong past that too: after 2^32 samples of 0 and one of 1 the median is
  reported as 1. They are right for every quantile exactly when each wrapped bucket is the one
  of the largest sample and reports that sample (`Histogram.WrapMovesPercentile`,
  `Histogram.PercentilesExact`).
- The claimed quantization error of an integer sample holds exactly up to
  1023 * 512 * 2^36 / 511, a little above 2^46, and fails for every integer past that
  (`Buckets.QuantizationExact`).
- Steering counters are 64 bits wide; conservation holds exactly while none has
  wrapped (`Steering.PacketsConserved`, `Steering.SlotsConserved`, `Steering.WrapLosesPackets`).
- A comment at `examples/quic-lb/steer_by_cid.bpf.c:405-409` says an opening Initial of a
  foreign length takes the fallback. The code places it by hash. It takes the fallback exactly
  when its connection ID is shorter than eight octets or the slot it hashes to is empty
  (`Steering.ForeignInitialPlaced`).
- The gate and the documentation check disagree on one family of claims: not passed,
  and without an `evidenceIds` list (`Claims.TwinAgreesOnClaim`, `Claims.TwinDisagrees`).
- A bind, or the revert after a failed documentation check, that dies between its two
  writes can leave `ready` on disk without a lock; exactly those runs do
  (`Promotion.TornExactly`, `Promotion.TornBindExample`, `Promotion.TornRevertExample`).
- A comment at `tools/interop/evidence-privacy.ts:160-161` says rerooting never changes
  a safe value. It does whenever the root occurs inside one, as in `a/opt` with root
  `/opt` (`Privacy.SafeValueRewritten`, `Privacy.RerootExact`).
- Privacy findings are documented as RFC 6901 pointers. What concerns the document itself, an
  unsafe string or an unsafe key of its own, is reported at `/`, which by section 5 of RFC 6901
  denotes a member with an empty key. The pointers all read back as the places they are about
  exactly when the document is neither (`Privacy.FindingsPinpoint`); at the top the text does not
  even determine the place (`Privacy.RootTextIsAmbiguous`).
- Schema problems are documented as JSON pointers, but keys are written into them unescaped, and
  the document itself is `/`. A problem's pointer leads to the value at fault exactly when that is
  not the document and every key on the way has no slash and unescapes to itself
  (`SchemaPointers.ProblemsLocated`, `SchemaPointers.SlashMisleads`, `SchemaPointers.RootMisleads`).
- Sanitizing twice can differ from sanitizing once. With root `/<r`, the value `x//<r` becomes
  `x/<repo>`, in which the root is back (`Privacy.BracketRootNotIdempotent`). A replaced text can
  come back exactly if it is part of the replacement, or holds it, or begins with an end of it, or
  ends with a beginning of it without hiding itself (`Comebacks.ReturnsExactly`). Sanitizing is
  idempotent under all rules exactly when the root is empty, is the placeholder, or neither comes
  back nor occurs in the redaction marker (`Privacy.AlwaysIdempotent`); so the bracket-free root
  `repo` is harmful and the root `<<` is not (`Privacy.HarmlessExamples`). For given rules see `Privacy.IdempotentExactly`.

## Model

| member | source | states |
|---|---|---|
| `Sorting.SortSorted` | scripts/release-evidence-lib.ts:708-710 | the sort puts names in code-unit order |
| `Sorting.BelowExact` | scripts/release-evidence-lib.ts:708-710 | one name comes before another if and only if it has the smaller code unit at the first difference, or is a proper prefix |
| `Sorting.SortStable` | scripts/release-evidence-lib.ts:708-710 | members with equal names keep their order |
| `Sorting.SortFixpoint` | scripts/release-evidence-lib.ts:708-710 | a sorted list is left as it is |
| `Sorting.SortIgnoresOrder` | scripts/release-evidence-lib.ts:1939-1941 | when the name determines the element, the result does not depend on the input order |
| `TarFormat.SplitJoin` | scripts/release-evidence-lib.ts:716-730 | joining prefix and name with a slash restores every name the writer splits |
| `TarFormat.SafeNameExact` | scripts/release-evidence-lib.ts:671-678 | a name is safe if and only if it has 1 to 255 characters, no backslash, no NUL, and nothing empty, `.` or `..` between its slashes |
| `TarFormat.SplitExact` | scripts/release-evidence-lib.ts:718-730 | names of up to 100 characters are kept whole; a longer one is split if and only if its last slash leaves at most 155 and 100 |
| `Text.PartsExact` | scripts/release-evidence-lib.ts:675-677 | splitting at slashes yields exactly the stretches between them |
| `TarFormat.ParseOctalText` | scripts/release-evidence-lib.ts:682-691 | reading written octal digits gives the value back, whatever the padding |
| `TarFormat.OctalWidth` | scripts/release-evidence-lib.ts:688-690 | a value fills exactly its field if and only if it is below 8^width |
| `TarFormat.HeaderLayout` | scripts/release-evidence-lib.ts:731-741 | every header field sits at its own offset |
| `TarFormat.HeaderConstants` | scripts/release-evidence-lib.ts:732-740 | mode, owner, time, type, magic and version, byte by byte |
| `TarFormat.HeaderNames` | scripts/release-evidence-lib.ts:731-741 | name, prefix and, below 8^11, the size stand in their fields |
| `TarFormat.ChecksumField` | scripts/release-evidence-lib.ts:742-745 | any sum of 512 bytes is written as six octal digits that denote it, NUL and space |
| `TarFormat.ChecksumExact` | scripts/release-evidence-lib.ts:737-745 | a header's checksum digits denote the sum of its bytes with eight spaces in their place |
| `TarFormat.MemberLayout` | scripts/release-evidence-lib.ts:746-749 | a member is its header, its contents and the fewest zeros that fill a block |
| `TarFormat.ArchiveEnds` | scripts/release-evidence-lib.ts:751 | an archive takes whole blocks and ends with two of zeros |
| `TarCodec.RoundTrip` | scripts/release-evidence-lib.ts:707-851 | reading a written bundle gives its members sorted by name if and only if every size is below 8^11 |
| `TarCodec.Canonical` | scripts/release-evidence-lib.ts:809-851 | the reader accepts a byte string if and only if some member list within the limits is written as it |
| `TarCodec.ReadIsSorted` | scripts/release-evidence-lib.ts:846-850 | what is read is sorted and writes back as the very bytes it came from |
| `TarCodec.WrittenExactly` | scripts/release-evidence-lib.ts:707-730 | a bundle is written if and only if every name is safe and short or splits |
| `TarCodec.FirstRefusalExact` | scripts/release-evidence-lib.ts:711-728 | a refusal names the first member in name order that cannot be written, and says why |
| `TarCodec.WrittenInjective` | scripts/release-evidence-lib.ts:707-760 | bundles within the limits with the same bytes hold the same members |
| `TarCodec.OversizeIsNotReadBack` | scripts/release-evidence-lib.ts:735 | one member of 8^11 bytes is written and not read back |
| `TarCodec.OversizeCollides` | scripts/release-evidence-lib.ts:682-691 | a member of 8^11 bytes that ends in another member's blocks is written as the same bytes as two members, and is read back as those two |
| `TarCodec.CollisionExists` | scripts/release-evidence-lib.ts:682-691 | there are such members |
| `TarCodec.HeaderReads` | scripts/release-evidence-lib.ts:827-840 | a written header reads back as the name and size it was written for |
| `TarCodec.HeaderRefusal` | scripts/release-evidence-lib.ts:827-837 | what is in a header block that is refused, for each error |
| `TarCodec.ScanArchive` | scripts/release-evidence-lib.ts:821-844 | scanning an archive recovers its members in order |
| `TarCodec.WriteText` | scripts/release-evidence-lib.ts:693-703 | puts the text's bytes at the offset and changes nothing else |
| `TarCodec.WriteOctal` | scripts/release-evidence-lib.ts:682-691 | puts padded digits and a closing NUL in place, spill included |
| `TarCodec.SumBytes` | scripts/release-evidence-lib.ts:742-743 | the checksum loop adds up the header's bytes |
| `TarCodec.BuildHeader` | scripts/release-evidence-lib.ts:715-745 | filling the buffer field by field and patching the checksum yields the format's header |
| `TarCodec.EncodeMember` | scripts/release-evidence-lib.ts:746-749 | header, contents and padding of one member |
| `TarCodec.EncodeMembers` | scripts/release-evidence-lib.ts:711-750 | the blocks of all members, or the refusal of the first member that cannot be written |
| `TarCodec.Concatenate` | scripts/release-evidence-lib.ts:752-759 | copying at a running offset concatenates the blocks |
| `TarCodec.CreateTar` | scripts/release-evidence-lib.ts:707-760 | the writer's loops compute the specified archive, or its first refusal |
| `TarCodec.EqualBytes` | scripts/release-evidence-lib.ts:776-780 | true if and only if the byte strings are equal |
| `TarCodec.ScanMembers` | scripts/release-evidence-lib.ts:816-845 | the offset loop computes the specified scan, with its error cases, whatever way header blocks are read |
| `TarCodec.ReadTar` | scripts/release-evidence-lib.ts:816-851 | the reader computes the specified result, canonicity check included |
| `Buckets.InBucket` | tools/load/latency-histogram.ts:65-72 | a sample below 2^46 lies in the interval of its bucket, and those intervals tile the range |
| `Buckets.IndexMonotone` | tools/load/latency-histogram.ts:65-72 | a larger sample never lands in a lower bucket |
| `Buckets.IndexOfValue` | tools/load/latency-histogram.ts:65-81 | the bucket of a bucket's reported value is that bucket |
| `Buckets.QuantizationBound` | tools/load/latency-histogram.ts:207-213 | above the exact buckets the reported value is within value/512 of the sample |
| `Buckets.QuantizationExact` | tools/load/latency-histogram.ts:207-213 | for integer samples the bound holds if and only if the sample is at most 1023 * 512 * 2^36 / 511 |
| `Buckets.SmallIntegerExact` | tools/load/latency-histogram.ts:65-66 | integers below 256 are reported exactly |
| `Tally.HitsPermutation` | tools/load/latency-histogram.ts:98-110 | counting events by bucket does not depend on their order |
| `Tally.BankSum` | examples/quic-lb/steer_by_cid.bpf.c:215-240 | a bank of wrapping counters adds up to its events if and only if none has wrapped |
| `Histogram.RunCounts` | tools/load/latency-histogram.ts:98-110 | a counter holds the number of its samples modulo 2^32 |
| `Histogram.RunTotals` | tools/load/latency-histogram.ts:98-110 | total plus negative is the number of samples recorded |
| `Histogram.RunMax` | tools/load/latency-histogram.ts:109 | the maximum kept is the largest non-negative sample |
| `Histogram.RunMin` | tools/load/latency-histogram.ts:108 | the minimum kept is the smallest non-negative sample |
| `Histogram.RunSum` | tools/load/latency-histogram.ts:107 | the sum kept is that of the non-negative samples |
| `Histogram.TotalIsSum` | tools/load/latency-histogram.ts:98-110 | total equals the sum of the counters if and only if no counter wrapped |
| `Tally.ShortRunNeverWraps` | tools/load/latency-histogram.ts:104 | fewer events than a counter's width wrap no counter |
| `Histogram.RankExact` | tools/load/latency-histogram.ts:123 | the rank is the least positive integer not below q times the total |
| `Histogram.NearestRankSorted` | tools/load/latency-histogram.ts:122-123 | exactly one sample has at least q of the samples at or below it and less than q of them below it, and sorting finds it |
| `Histogram.NothingToRank` | tools/load/latency-histogram.ts:121 | without samples every quantile is zero |
| `Histogram.PercentileRefinesSorting` | tools/load/latency-histogram.ts:120-130 | while every wrapped counter is harmless, a percentile in (0, 1] is the representative of the bucket of the one sample with at least q of the samples at or below it and less than q of them below it |
| `Histogram.PercentilesExact` | tools/load/latency-histogram.ts:120-130 | every quantile in (0, 1] is answered so, on that counting definition, if and only if each wrapped bucket is that of the largest sample and reports it |
| `Histogram.WrapMovesPercentile` | tools/load/latency-histogram.ts:120-130 | 2^32 samples of 0 and one of 1 have median 0, and the histogram says 1 |
| `Histogram.NoWrapIsHarmless` | tools/load/latency-histogram.ts:104 | without wrapped counters there is no harm |
| `Histogram.PercentileAccuracy` | tools/load/latency-histogram.ts:120-130 | under the same condition, for integer samples below 2^46, it is within x/512 of that sample x, and equal below 256 |
| `Histogram.WrapLosesSamples` | tools/load/latency-histogram.ts:104 | 2^32 equal samples leave a zero counter and break conservation |
| `Histogram.SparseAscending` | tools/load/latency-histogram.ts:152-157 | sparse buckets are positive and strictly ascending |
| `Histogram.JsonPublishes` | tools/load/latency-histogram.ts:152-170 | what the JSON of a run says about its samples: counts, buckets, minimum, maximum and sum |
| `Histogram.FromJsonExact` | tools/load/latency-histogram.ts:172-192 | what any JSON is read as: counts add up per bucket modulo 2^32, foreign bucketing and the first index out of range are refused |
| `Histogram.LoadAdds` | tools/load/latency-histogram.ts:179-185 | loading adds the given counts to the counters and to the total |
| `Histogram.LoadRefuses` | tools/load/latency-histogram.ts:180-182 | it fails if and only if an index lies outside, at the first one |
| `Histogram.LoadSparse` | tools/load/latency-histogram.ts:179-185 | loading the sparse form restores every counter and their sum |
| `Histogram.JsonRoundTrip` | tools/load/latency-histogram.ts:152-192 | reading back the JSON of a run restores the whole state if and only if no counter wrapped |
| `Histogram.LatencyHistogram.constructor` | tools/load/latency-histogram.ts:83-95 | starts empty |
| `Histogram.LatencyHistogram.Record` | tools/load/latency-histogram.ts:98-110 | takes the state to the recorded one, in place; NaN is recorded like a negative sample |
| `Histogram.LatencyHistogram.Quantile` | tools/load/latency-histogram.ts:120-130 | the scan finds the percentile that the laws above are about |
| `Histogram.LatencyHistogram.Export` | tools/load/latency-histogram.ts:152-170 | the loop collects exactly the non-empty buckets |
| `Histogram.LatencyHistogram.Import` | tools/load/latency-histogram.ts:172-192 | rebuilds the state, or refuses foreign bucketing and indices out of range |
| `Histogram.LatencyHistogram.Reset` | tools/load/latency-histogram.ts:195-203 | back to the empty state |
| `Promotion.LocksSurvive` | scripts/promote-release-status.ts:106-187 | over every sequence of promote runs interrupted at any write, ready implies a lock and a lock is never rewritten |
| `Promotion.TornExactly` | scripts/promote-release-status.ts:176-187 | a run leaves a consistent disk inconsistent if and only if it dies between clearing the lock and writing the status |
| `Promotion.TornBindExample` | scripts/release-evidence.ts:220-235 | from every promoted candidate with a lock the manifest may hold, a rebind that dies after its first write leaves ready without a lock |
| `Promotion.TornRevertExample` | scripts/promote-release-status.ts:157-187 | so does every first promotion that verifies, fails the documentation check and dies after the first write of its revert |
| `Promotion.RunsLoad` | scripts/release-evidence-lib.ts:441-488 | over every sequence of interrupted runs, a lock has the commit and tag of the candidate and lists assets, none empty, so that the next run can load it |
| `Promotion.PromotionCompletes` | scripts/promote-release-status.ts:110-164 | one run that verifies ends ready and locked to the candidate's commit and tag with exactly the downloaded assets; a lock already there is kept, a new one bears the time; verification that requires readiness then finds nothing, and the next run writes nothing |
| `Promotion.FailedDocsRevert` | scripts/promote-release-status.ts:176-187 | an uninterrupted revert ends with neither lock nor readiness |
| `Promotion.RefusedRunWritesNothing` | scripts/promote-release-status.ts:117-120 | a run refused by verification writes nothing |
| `Promotion.DryRunWritesNothing` | scripts/promote-release-status.ts:141-158 | neither does a dry run, nor one that would lock nothing or something empty |
| `Promotion.BindCompletes` | scripts/release-evidence.ts:220-235 | an uninterrupted bind leaves the new candidate, unlocked and pending |
| `Promotion.RequireReadyExact` | scripts/release-evidence-lib.ts:2012-2033 | the gate passes if and only if the disk is locked and ready and the lock still describes the release |
| `Promotion.FailuresExact` | scripts/release-evidence-lib.ts:2010-2033 | verification reports a failure if and only if it has its cause |
| `Promotion.RefusingExact` | scripts/promote-release-status.ts:110-120 | promotion refuses over every failure but the two an interruption explains |
| `Promotion.ReleaseAssetsExact` | scripts/release-evidence-lib.ts:1922-1941 | the assets locked are the listed ones that downloaded, with size and hash, once per listing, in name order |
| `Promotion.GateIgnoresListingOrder` | scripts/release-evidence-lib.ts:1939-1941 | the verdict does not depend on the order in which the release lists its assets |
| `Promotion.Files.PromoteOnce` | scripts/promote-release-status.ts:106-187 | the script with its in-memory edits performs exactly the specified writes, up to the crash |
| `Upload.Remote.Attempt` | scripts/release-evidence.ts:1014-1027 | one call: it may fail or lose its answer, but an answer that arrives is true |
| `Upload.Remote.UploadFiles` | scripts/release-evidence.ts:971-995 | an upload attaches any part of the files with any bytes and touches nothing else |
| `Upload.Remote.Create` | scripts/release-evidence.ts:910-929 | creating may take effect and report failure, never the reverse; a success is an empty prerelease |
| `Upload.WithRetries` | scripts/release-evidence.ts:1014-1027 | between one and four attempts, and no answer only after four failures; the answer is true of the release as it stands |
| `Upload.CheckFile` | scripts/release-evidence.ts:1059-1077 | a completed read-back of a file is silent if and only if the release holds its validated bytes, and otherwise says which of two ways it does not |
| `Upload.CheckFiles` | scripts/release-evidence.ts:1059-1077 | reports the problems of the files in order, up to the first that cannot be read back |
| `Upload.CheckFlags` | scripts/release-evidence.ts:1053-1058 | reports each flag that is not as it should be |
| `Upload.CheckRelease` | scripts/release-evidence.ts:1050-1078 | reports the problems of the flags and then of the files, or that the release is gone |
| `Upload.ReadProblemsExact` | scripts/release-evidence.ts:1051-1083 | each problem is in the report if and only if it is there |
| `Upload.NoProblems` | scripts/release-evidence.ts:1089-1094 | the report is empty if and only if the release is in the verified state |
| `Upload.ReadBack` | scripts/release-evidence.ts:1049-1088 | a completed read-back reports exactly the problems of the release; otherwise the first of them and that a request went unanswered four times |
| `Upload.Withdraw` | scripts/release-evidence.ts:1095-1130 | the three lists partition the pending names, what is still attached is stranded, after four failed deletions each; what is withdrawn was attached, nothing else is touched |
| `Upload.ReconcileUpload` | scripts/release-evidence.ts:1038-1144 | complete, with the verified state untouched, if and only if there is no problem; otherwise every problem is given and every pending name accounted for; within a bounded number of calls |
| `Upload.SelectPending` | scripts/release-evidence.ts:940-960 | what is pending is exactly what is not attached, in order, and what is not pending is attached with the same bytes; refused only where a digest differs or could not be read back |
| `Upload.Prepare` | scripts/release-evidence.ts:822-954 | before the upload at most an empty prerelease is created; every refusal has its cause in the release or in the calls made |
| `Upload.Send` | scripts/release-evidence.ts:966-1004 | after the upload, the verified state or the problems of the release the upload left, and nothing else touched |
| `Upload.UploadCommand` | scripts/release-evidence.ts:822-1005 | a normal executed return means every file is attached with its bytes and the tag is at the bound commit; every error has its cause; a failed verification gives the problems of the release the upload left and names every file that was not attached before, and any other failure leaves the release as it was or newly created |
| `Steering.ShortHeaderReachesOwner` | examples/quic-lb/steer_by_cid.bpf.c:432-497 | a short header carrying a minted connection ID goes to the registered slot whenever it is occupied, whatever the rest |
| `Steering.LongHeaderReachesOwner` | examples/quic-lb/steer_by_cid.bpf.c:362-497 | the same for a version 1 long header other than Retry |
| `Steering.SteeredHasReason` | examples/quic-lb/steer_by_cid.bpf.c:327-498 | conversely, a steered packet is UDP, a long header of version 1 and not a Retry, or a short one, and carries a minted head registered for its slot, or hashes to it |
| `Steering.RouteExactly` | examples/quic-lb/steer_by_cid.bpf.c:327-498 | a packet is steered to a slot if and only if its octets satisfy conditions written out one by one |
| `Steering.LegalExamples` | examples/quic-lb/steer_by_cid.bpf.c:94-119 | which constants are legal, at each limit |
| `Steering.ForeignInitialPlaced` | examples/quic-lb/steer_by_cid.bpf.c:405-430 | a long header other than Retry with a connection ID of a foreign length goes to the slot its first eight octets hash to; it falls back if and only if that slot is empty or the ID is shorter |
| `Steering.KeysDistinct` | examples/quic-lb/steer_by_cid.bpf.c:107-113 | server IDs of one length never share a map key |
| `Steering.MintLayout` | crates/native/src/quic_lb.rs:298-315 | a connection ID is three bits of rotation, five random ones, server ID and nonce |
| `Steering.PlaceSlotExact` | examples/quic-lb/steer_by_cid.bpf.c:290-316 | the slot is the hash modulo the number of instances |
| `Hashing.OneOctetMatters` | examples/quic-lb/steer_by_cid.bpf.c:304-309 | inputs that differ in one octet have different hashes |
| `Hashing.FnvVectors` | examples/quic-lb/steer_by_cid.bpf.c:294-309 | the published FNV-1a hashes of nothing and of one letter |
| `Steering.PlacementStable` | examples/quic-lb/steer_by_cid.bpf.c:290-325 | placement of client-chosen IDs depends on their first eight octets only |
| `Steering.PacketsConserved` | examples/quic-lb/steer_by_cid.bpf.c:232-262 | over every run on any number of CPUs, steered plus fallback is the number of packets if and only if no counter wrapped |
| `Steering.SlotsConserved` | examples/quic-lb/steer_by_cid.bpf.c:215-230 | the per-slot counters add up to the steered packets under the same condition |
| `Steering.SlotsMatchSteered` | examples/quic-lb/steer_by_cid.bpf.c:215-230 | in runs of fewer than 2^64 packets they add up to the steered counters |
| `Steering.TotalsMean` | examples/quic-lb/steer_by_cid.bpf.c:215-240 | below 2^64 packets, a CPU's totals are the packets it steered and those it did not |
| `Steering.SlotsMean` | examples/quic-lb/steer_by_cid.bpf.c:215-240 | and its slot counters the packets steered to each slot, by header form |
| `Steering.WrapLosesPackets` | examples/quic-lb/steer_by_cid.bpf.c:232-240 | any packet processed 2^64 times on one CPU breaks conservation |
| `Steering.SteerProgram.Bump` | examples/quic-lb/steer_by_cid.bpf.c:232-240 | bumps one CPU's steered or fallback counter and no other |
| `Steering.SteerProgram.BumpSlot` | examples/quic-lb/steer_by_cid.bpf.c:215-230 | bumps one slot's short or long counter and no other |
| `Steering.SteerProgram.Count` | examples/quic-lb/steer_by_cid.bpf.c:482-497 | bumps the counters of a verdict and answers it |
| `Steering.SteerProgram.HashDcid` | examples/quic-lb/steer_by_cid.bpf.c:293-310 | the unrolled loop computes FNV-1a |
| `Steering.SteerProgram.Decide` | examples/quic-lb/steer_by_cid.bpf.c:327-498 | the branches compute the route of which the laws above give the exact condition |
| `Steering.SteerProgram.CopyServerId` | examples/quic-lb/steer_by_cid.bpf.c:475-477 | copying octets into a zeroed key gives the padded key |
| `Steering.SteerProgram.Steer` | examples/quic-lb/steer_by_cid.bpf.c:327-498 | always a pass, only selectable slots, and the counters stay those of the run |
| `Manifest.MergeIff` | scripts/release-evidence-lib.ts:639-662 | merging succeeds if and only if a condition on the set of entries holds |
| `Manifest.MergeablePairwise` | scripts/release-evidence-lib.ts:639-662 | that condition is pairwise compatibility of base and additions, all on the candidate |
| `Manifest.MergeContents` | scripts/release-evidence-lib.ts:639-662 | old entries stay as a prefix, contents are the union, ids and assets stay unique |
| `Manifest.MergeConcat` | scripts/release-evidence-lib.ts:639-662 | merging twice is merging the concatenation |
| `Manifest.MergeIgnoresOrder` | scripts/release-evidence-lib.ts:613-662 | any order of the same additions succeeds alike and serializes alike |
| `Manifest.MergeConfluent` | scripts/release-evidence-lib.ts:613-662 | A then B succeeds only if B then A does, with the same serialized manifest |
| `Manifest.MergeIdempotent` | scripts/release-evidence-lib.ts:648-650 | merging again adds nothing |
| `Manifest.ImportIgnoresOrder` | scripts/release-evidence.ts:741-763 | the order of the fragments does not change what is written |
| `Manifest.SerializedExact` | scripts/release-evidence-lib.ts:612-618 | a manifest is written in strictly ascending order of ids, with what was merged |
| `Manifest.MergeOneRefuses` | scripts/release-evidence-lib.ts:645-658 | why an entry is refused, for each error |
| `Manifest.ManifestFile.MergeEntries` | scripts/release-evidence-lib.ts:639-662 | the pushing loop computes the specified merge, returns the growth and never alters an entry; a refusal leaves exactly the entries before the refused one merged |
| `Manifest.MergeFragment` | scripts/release-evidence.ts:750-761 | a fragment is taken if and only if repository, commit and tag fit and its entries merge; each error says which did not |
| `Manifest.MergeFragments` | scripts/release-evidence.ts:742-762 | succeeds if and only if every fragment is acceptable and everything is mergeable; an error is that of the first fragment that is not, on what was merged before it |
| `Manifest.Import` | scripts/release-evidence.ts:703-770 | the file is rewritten if and only if the import is possible, otherwise it stays and the error is that of the first fragment that blocks |
| `Claims.CitationsExact` | scripts/release-evidence-lib.ts:1427-1442 | no citation fault if and only if every cited entry exists and names the claim |
| `Claims.CheckCitations` | scripts/release-evidence-lib.ts:1427-1442 | reports one fault per bad citation, in order |
| `Claims.BackingExact` | scripts/release-evidence-lib.ts:1443-1475 | no backing failure if and only if the claim passed and all its non-empty evidence proves it on the candidate |
| `Claims.CheckBacking` | scripts/release-evidence-lib.ts:1443-1475 | reports status, missing evidence, one fault per bad entry and a missing binding, in order |
| `Claims.HeaderExact` | scripts/release-evidence-lib.ts:1401-1418 | no header failure if and only if schema, retirement, candidate and claim ids match |
| `Claims.CheckHeader` | scripts/release-evidence-lib.ts:1401-1418 | reports each mismatch, in order; ids are compared as sorted lists |
| `Claims.RegisteredExact` | scripts/release-evidence-lib.ts:1419-1476 | a registered claim draws no failure if and only if its rule holds |
| `Claims.CheckRegistered` | scripts/release-evidence-lib.ts:1419-1476 | reports a differing flag, then the failures of the rule that applies |
| `Claims.CheckAllRegistered` | scripts/release-evidence-lib.ts:1419-1477 | the same over the registry, in order |
| `Claims.CheckClaimBindings` | scripts/release-evidence-lib.ts:1392-1478 | no failure if and only if the declarative gate holds |
| `Claims.RegisteredMeans` | scripts/release-evidence-lib.ts:1419-1476 | about a registered claim exactly the messages that hold are reported |
| `Claims.GateMeans` | scripts/release-evidence-lib.ts:1392-1478 | and so over the whole status |
| `Claims.CompleteImpliesIntegrity` | scripts/release-evidence-lib.ts:1396-1426 | complete mode implies integrity mode |
| `Claims.IdsMatch` | scripts/release-evidence-lib.ts:1413-1418 | equal sorted id lists mean one claim per registered id |
| `Claims.GateByClaim` | scripts/release-evidence-lib.ts:1392-1478 | the complete gate, read claim by claim, both ways |
| `Claims.TwinEvidenceExact` | scripts/check-doc-truth.ts:447-477 | no evidence violation if and only if the twin's rule accepts the claim |
| `Claims.TwinCheckEvidence` | scripts/check-doc-truth.ts:447-477 | reports the evidence violations of one claim, in order |
| `Claims.CheckClaim` | scripts/check-doc-truth.ts:427-477 | reports the violations of one claim, in order, a flag that is not a boolean among them |
| `Claims.CheckClaims` | scripts/check-doc-truth.ts:418-480 | reports them over the list, and is silent if and only if ids are present and distinct and every claim is well formed and accepted |
| `Claims.ClaimMeans` | scripts/check-doc-truth.ts:427-477 | about one claim exactly the violations there are, each under the claim's index |
| `Claims.ClaimsMean` | scripts/check-doc-truth.ts:418-480 | and so over all claims, a duplicate being a claim whose id occurs before it |
| `Claims.LookupExact` | scripts/check-doc-truth.ts:457 | an id refers to the last entry that has it |
| `Claims.TwinAgreesOnClaim` | scripts/check-doc-truth.ts:447-477 | the two implementations agree on a claim if and only if it passed or carries an evidence list |
| `Claims.TwinDisagrees` | scripts/check-doc-truth.ts:251-257 | a pending claim without a list is accepted by one and refused by the other |
| `Claims.TwinAgrees` | scripts/check-doc-truth.ts:418-480 | otherwise integrity mode passes if and only if the twin accepts every claim's evidence |
| `Comebacks.ReplacedGone` | tools/interop/evidence-privacy.ts:162-165 | after replacing, a text that cannot come back no longer occurs |
| `Comebacks.ReturnsExactly` | tools/interop/evidence-privacy.ts:162-165 | some text still holds the replaced one if and only if that overlaps with the replacement in one of four ways, none of which mentions a text |
| `Comebacks.ReturnsInside` | tools/interop/evidence-privacy.ts:162-165 | a text without the replacement's end characters comes back only as part of it |
| `Text.ReplaceExact` | tools/interop/evidence-privacy.ts:162-165 | replacing a text by another changes a string if and only if the text occurs in it |
| `Text.ReplaceAbsent` | tools/interop/evidence-privacy.ts:162-165 | a text without the root is left alone |
| `Pointers.UnescapeEscape` | tools/interop/evidence-privacy.ts:86-88 | unescaping as section 4 of RFC 6901 says undoes the escaping |
| `Pointers.EscapeInjective` | tools/interop/evidence-privacy.ts:86-88 | different keys have different tokens |
| `Pointers.EscapedCharacters` | tools/interop/evidence-privacy.ts:86-88 | tilde and slash are written `~0` and `~1` |
| `Text.DecimalExact` | tools/interop/evidence-privacy.ts:125 | an index is written in decimal digits that denote it, without leading zeros |
| `Pointers.EscapedReads` | tools/interop/evidence-privacy.ts:86-141 | a path written with escaping reads back |
| `Pointers.JoinedReads` | scripts/release-evidence-content.ts:384-415 | a path written without escaping reads back if and only if no token has a slash and each unescapes to itself |
| `Pointers.TokensOfChild` | tools/interop/evidence-privacy.ts:123-141 | a child's pointer reads as its parent's tokens plus its own |
| `Pointers.ItemAt` | tools/interop/evidence-privacy.ts:123-127 | what is written for an array item denotes that item |
| `Pointers.FieldAt` | tools/interop/evidence-privacy.ts:141 | what is written for a member denotes that member |
| `Privacy.Walk.Visit` | tools/interop/evidence-privacy.ts:117-151 | the recursive walk appends exactly the specified findings, in document order |
| `Privacy.Walk.VisitItems` | tools/interop/evidence-privacy.ts:123-127 | the same over an array |
| `Privacy.Walk.VisitFields` | tools/interop/evidence-privacy.ts:130-150 | the same over an object, unsafe and secret names reported and not entered |
| `Privacy.FindPrivacyViolations` | tools/interop/evidence-privacy.ts:114-155 | reports nothing if and only if the document is clean |
| `Privacy.NoViolationsIffClean` | tools/interop/evidence-privacy.ts:114-155 | the same at any pointer |
| `Privacy.CleanEverywhere` | tools/interop/evidence-privacy.ts:109-113 | clean means clean at every pointer, at every depth |
| `Privacy.ViolationsArePlaces` | tools/interop/evidence-privacy.ts:114-155 | the findings are the places of the document's problems, each under its text, in order |
| `Privacy.PlacesCaused` | tools/interop/evidence-privacy.ts:114-155 | at each place there is what the finding complains about |
| `Privacy.EverythingReported` | tools/interop/evidence-privacy.ts:114-155 | every unsafe string and every unsafe or secret name that can be reached is reported at its place |
| `Privacy.PlaceReads` | tools/interop/evidence-privacy.ts:80-84 | a finding's pointer reads back as its place if and only if that is not the document itself |
| `Privacy.FindingsPinpoint` | tools/interop/evidence-privacy.ts:80-84 | all findings' pointers read back as their places if and only if the document is neither an unsafe string nor an object with an unsafe key of its own |
| `Privacy.RootTextIsAmbiguous` | tools/interop/evidence-privacy.ts:134-138 | two documents with problems in different places get the same finding |
| `Privacy.SanitizedPasses` | tools/interop/evidence-privacy.ts:170-201 | for every document and root, the checker finds nothing in the sanitized document |
| `Privacy.SanitizeFixpoint` | tools/interop/evidence-privacy.ts:157-201 | for every root, sanitizing is the identity if and only if the document is clean and each string in it lacks the root, or the root is the placeholder, or the string is the marker and redacts to itself |
| `Privacy.SanitizeUnchanged` | tools/interop/evidence-privacy.ts:157-201 | for every root, a clean document that does not mention it is left as it is |
| `Privacy.SanitizeFixpointOrdinary` | tools/interop/evidence-privacy.ts:157-201 | for a root that is not the placeholder and does not make the marker redact to itself, those are all the documents left as they are |
| `Privacy.SanitizeIdempotent` | tools/interop/evidence-privacy.ts:157-201 | sanitizing twice is sanitizing once, for a root that is empty, or the placeholder, or cannot come back and leaves the marker alone |
| `Privacy.IdempotentExactly` | tools/interop/evidence-privacy.ts:157-201 | and only for such a root, under rules that refuse something and let through the text in which the root would come back |
| `Privacy.IdempotentWithoutBrackets` | tools/interop/evidence-privacy.ts:157-201 | a root without brackets is such a root if and only if it is not part of the placeholder and the marker, should it hold the root, is redacted again |
| `Privacy.AlwaysIdempotent` | tools/interop/evidence-privacy.ts:157-201 | sanitizing is idempotent under all rules that accept the marker if and only if the root is empty, or the placeholder, or neither comes back nor occurs in the marker |
| `Privacy.SettlesWithoutBrackets` | tools/interop/evidence-privacy.ts:157-201 | a root without brackets that occurs in neither fixed text is such a root |
| `Privacy.SettlesAbsolute` | tools/interop/evidence-privacy.ts:157-201 | so is every absolute root without brackets |
| `Privacy.HarmlessExamples` | tools/interop/evidence-privacy.ts:162-167 | a root of brackets that is harmless, and a root without any that is not |
| `Privacy.BracketRootNotIdempotent` | tools/interop/evidence-privacy.ts:162-167 | a value that a second pass changes, under all rules that accept `x/<repo>` |
| `Privacy.SanitizeKeepsPlaces` | tools/interop/evidence-privacy.ts:185-198 | at every pointer the result holds the sanitized value, and none exactly where a key on the way is unpublishable or nothing was there |
| `Privacy.StringExact` | tools/interop/evidence-privacy.ts:157-168 | for every root, when exactly a string is kept |
| `Privacy.RerootExact` | tools/interop/evidence-privacy.ts:158-165 | for every root, rerooting changes a value if and only if the root occurs in it and is not the placeholder |
| `Privacy.SanitizeStringExact` | tools/interop/evidence-privacy.ts:157-168 | a path under the root becomes one under `<repo>`, and what is still unsafe the redaction marker |
| `Privacy.NormalizedRootExact` | tools/interop/evidence-privacy.ts:184 | all trailing slashes and backslashes of the root go, and nothing else |
| `Privacy.SafeValueRewritten` | tools/interop/evidence-privacy.ts:160-161 | a safe value with the root inside it is rewritten |
| `Schemas.ProblemsExact` | scripts/release-evidence-content.ts:363-443 | no problem if and only if the value conforms to the schema |
| `Schemas.ShortestIsLeast` | scripts/release-evidence-content.ts:433-441 | a failed oneOf reports one of its attempts, and none is shorter |
| `Schemas.SafeIntegerExact` | scripts/release-evidence-content.ts:427-428 | a number is accepted as an integer if and only if it denotes an integer strictly between -2^53 and 2^53 |
| `SchemaPointers.ProblemsLocated` | scripts/release-evidence-content.ts:361-443 | the problems are faults of the values at their paths, measured by the part of the schema that applies there; a pointer reads back as its path if and only if the path is not empty and all its tokens are plain |
| `SchemaPointers.ProblemsAreFound` | scripts/release-evidence-content.ts:363-443 | what is reported is what is found, each fault under the text of its path, in order |
| `SchemaPointers.FindsHold` | scripts/release-evidence-content.ts:363-443 | what is found below any location is a fault of the value there, against the sub-schema reached by that path |
| `SchemaPointers.FindsComplete` | scripts/release-evidence-content.ts:363-443 | and every fault that measuring leads to, without a oneOf on the way, is found |
| `SchemaPointers.PointerReads` | scripts/release-evidence-content.ts:368-384 | when exactly a problem's pointer leads to the value at fault |
| `SchemaPointers.PlainSchemaLocates` | scripts/release-evidence-content.ts:361-443 | under a schema of plain keys a pointer misleads only for the document itself |
| `SchemaPointers.SlashMisleads` | scripts/release-evidence-content.ts:404-406 | with a slash in a key the location reported does not exist |
| `SchemaPointers.RootMisleads` | scripts/release-evidence-content.ts:368-372 | the document's own problem is reported where nothing is |
| `SchemaBounds.NestingBounded` | scripts/release-evidence-content.ts:363-443 | an accepted value nests no deeper than a bound read off the schema |
| `SchemaBounds.NodesBounded` | scripts/release-evidence-content.ts:363-443 | an accepted value holds no more nodes than a bound read off the schema |
| `SchemaBounds.Attained` | scripts/release-evidence-content.ts:363-443 | both bounds are attained by an accepted value, wherever every key list, array and choice can be filled |
| `SchemaBounds.TelemetryExact` | scripts/release-evidence-content.ts:863-876 | telemetry(d) accepts exactly telemetry-shaped data nesting at most d |
| `SchemaBounds.TelemetryProblems` | scripts/release-evidence-content.ts:863-876 | the validator reports nothing on exactly that data |
| `Content.LineEnds` | scripts/release-evidence-content.ts:1206 | a line ends at its feed, without a carriage return before it |
| `Content.LastLine` | scripts/release-evidence-content.ts:1206 | what holds no feed is one line |
| `Content.LinesHoldNoFeed` | scripts/release-evidence-content.ts:1206 | no line holds a line feed |
| `Content.Matching` | scripts/release-evidence-content.ts:1187-1194 | finds one rule if and only if exactly one declared file matches |
| `Content.CheckText` | scripts/release-evidence-content.ts:1202-1215 | silent if and only if size and every line are accepted; otherwise the size and the first bad line |
| `Content.PassOn` | scripts/release-evidence-content.ts:1228-1231 | passes on the first twenty problems under the member's name |
| `Content.CheckJson` | scripts/release-evidence-content.ts:1216-1231 | silent if and only if the schema is known, the text parses and the value conforms |
| `Content.CheckMember` | scripts/release-evidence-content.ts:1186-1232 | silent if and only if exactly one rule matches and its schema accepts; each refusal has its own finding |
| `Content.ContentProblems` | scripts/release-evidence-content.ts:1177-1234 | silent if and only if every member is accepted; otherwise names exactly the refused members, in order, each with its own report |
| `Content.AcceptedIsBounded` | scripts/release-evidence-content.ts:1177-1234 | an accepted JSON member is bounded by its declared schema |
| `OpaqueRun.Split` | scripts/release-evidence-content.ts:152-167 | chunks and gaps rebuild the text, chunks are the alphabet's maximal runs |
| `OpaqueRun.Take` | scripts/release-evidence-content.ts:155-166 | one character keeps the decomposition of what was read |
| `OpaqueRun.DecompositionUnique` | scripts/release-evidence-content.ts:152-167 | no text decomposes in two ways |
| `OpaqueRun.ProjectionOfRebuilt` | scripts/release-evidence-content.ts:187-188 | the joined chunks are the text filtered by the alphabet |
| `OpaqueRun.ScanRuns` | scripts/release-evidence-content.ts:168-186 | finds the first refused run between natural word gaps, or there is none |
| `OpaqueRun.WindowsCover` | scripts/release-evidence-content.ts:190-198 | any 35 consecutive projected characters contain a whole scanned window |
| `OpaqueRun.ThirtyFourIsTooFew` | scripts/release-evidence-content.ts:190-198 | 34 do not always |
| `OpaqueRun.ScanWindows` | scripts/release-evidence-content.ts:199-201 | finds a decodable window if and only if there is one |
| `OpaqueRun.SpanEnd` | scripts/release-evidence-content.ts:206-209 | the inner loop stops at the first end that reaches a window's length |
| `OpaqueRun.BreakLosesNothing` | scripts/release-evidence-content.ts:210 | the early break skips no refused span |
| `OpaqueRun.ScanSpans` | scripts/release-evidence-content.ts:202-219 | finds an encoded span if and only if there is one |
| `OpaqueRun.Judge` | scripts/release-evidence-content.ts:168-221 | the three passes give the specified verdict |
| `OpaqueRun.OpaqueRunReason` | scripts/release-evidence-content.ts:151-221 | the verdict is that of the text's one decomposition, and a decodable projection is always refused |
| `OpaqueRun.VerdictUnique` | scripts/release-evidence-content.ts:151-221 | the chunks determine the reason reported |
| `OpaqueRun.ShortTextsPass` | scripts/release-evidence-content.ts:168-219 | fewer than 24 characters of the alphabet are never refused |
| `OpaqueRun.LongRunRefused` | scripts/release-evidence-content.ts:168-186 | a run of 24 or more that looks encoded is refused as such |
| `OpaqueRun.ChurningSpanRefused` | scripts/release-evidence-content.ts:202-219 | a churning span of 24 or more with three chunks in ten that are no words is refused; spans end at 32 characters |
| `OpaqueRun.RefusedSpanChurns` | scripts/release-evidence-content.ts:202-219 | conversely, what is refused as a span holds one |
| `OpaqueRun.SeparatorsDoNotHelp` | scripts/release-evidence-content.ts:139-150 | if one text's projection has a decodable window, every text with that projection is refused |
| `FaultEngine.NextBijective` | tools/interop/udp-fault-proxy.ts:55-62 | the xorshift step is a bijection on 32-bit words, with its inverse given |
| `FaultEngine.NextNonZero` | tools/interop/udp-fault-proxy.ts:55-62 | only zero steps to zero |
| `FaultEngine.NextVectors` | tools/interop/udp-fault-proxy.ts:55-62 | where the step takes the lowest and the highest bit |
| `FaultEngine.NextLinear` | tools/interop/udp-fault-proxy.ts:55-62 | the step is linear over exclusive or |
| `FaultEngine.SeedNonZero` | tools/interop/udp-fault-proxy.ts:50-53 | no seed starts at zero |
| `FaultEngine.SeedValue` | tools/interop/udp-fault-proxy.ts:50-53 | as a number, the start is the seed modulo 2^32, or the constant where that is zero |
| `FaultEngine.UnitRange` | tools/interop/udp-fault-proxy.ts:61 | every draw is the word's value over 2^32, in [0, 1) |
| `FaultEngine.DelayRange` | tools/interop/udp-fault-proxy.ts:87-135 | a forwarded packet waits within delay plus or minus jitter, at least zero, plus the reorder extra if and only if it is counted as reordered; it is sent twice, one millisecond apart, if and only if it is counted as duplicated |
| `FaultEngine.DroppedExactly` | tools/interop/udp-fault-proxy.ts:92-116 | a packet is dropped by the black hole if it comes while that is open, else by the burst if its number lies in the window, else if the next draw is below the loss rate; and only then, with the counters of the reason |
| `FaultEngine.ForwardedExactly` | tools/interop/udp-fault-proxy.ts:118-134 | otherwise its delays, counters and draws, in terms of the numbers drawn |
| `FaultEngine.RoundExact` | tools/interop/udp-fault-proxy.ts:127-130 | delays are rounded to the nearest millisecond |
| `FaultEngine.RatesAtTheEnds` | tools/interop/udp-fault-proxy.ts:113-131 | over every run, loss, reordering and duplication never strike at rate 0 and always at rate 1 |
| `FaultEngine.BlackHoleExact` | tools/interop/udp-fault-proxy.ts:92-101 | over every run, the black hole takes exactly the packets that come while it is open |
| `FaultEngine.NeverZero` | tools/interop/udp-fault-proxy.ts:47-63 | no state reachable in any run is zero |
| `FaultEngine.GeneratorPosition` | tools/interop/udp-fault-proxy.ts:87-135 | after any run the generator has moved by a number of steps read off the statistics |
| `FaultEngine.PacketsConserved` | tools/interop/udp-fault-proxy.ts:87-135 | after any run, seen = dropped + (forwarded - duplicated), and the directions add up |
| `FaultEngine.BurstHitsClosed` | tools/interop/udp-fault-proxy.ts:102-107 | how many of the first n packet numbers fall into the burst window |
| `FaultEngine.BurstExact` | tools/interop/udp-fault-proxy.ts:87-111 | in each direction, the packet numbers of the window that were reached are exactly those dropped by the burst plus those a black hole took first; the counter is the sum of the former |
| `FaultEngine.BurstTakesWindow` | tools/interop/udp-fault-proxy.ts:87-111 | without a black hole the counter equals the window's packet numbers over both directions |
| `FaultEngine.XorShift32.constructor` | tools/interop/udp-fault-proxy.ts:50-53 | the state's value is the seed modulo 2^32, or the constant where that is zero, and the state is never the zero word |
| `FaultEngine.XorShift32.Draw` | tools/interop/udp-fault-proxy.ts:55-62 | three in-place shifts take the bijective step |
| `FaultEngine.SeededUdpFaultEngine.constructor` | tools/interop/udp-fault-proxy.ts:80-85 | starts with zero statistics at the seed |
| `FaultEngine.SeededUdpFaultEngine.PlanNext` | tools/interop/udp-fault-proxy.ts:87-119 | plans and counts one packet as the laws above say |
| `FaultEngine.SeededUdpFaultEngine.DrawBase` | tools/interop/udp-fault-proxy.ts:118-121 | the base delay; a word is drawn if and only if there is jitter |
| `FaultEngine.SeededUdpFaultEngine.CountDelay` | tools/interop/udp-fault-proxy.ts:122-128 | the delay after reordering, and its two counters |
| `FaultEngine.SeededUdpFaultEngine.DeliverNext` | tools/interop/udp-fault-proxy.ts:118-134 | the jitter, reorder and duplicate draws in the order that the laws above fix |
| `FaultEngine.UdpFaultProxy.OnFrontMessage` | tools/interop/udp-fault-proxy.ts:215-231 | handles one datagram as specified |
| `FaultEngine.BindsFirstConnection` | tools/interop/udp-fault-proxy.ts:215-231 | the proxy binds to the sender of the first long header and forwards exactly that sender's datagrams from there on |
| `FaultEngine.NothingBound` | tools/interop/udp-fault-proxy.ts:301-303 | short headers alone bind and forward nothing |
| `FaultEngine.LongHeaderExact` | tools/interop/udp-fault-proxy.ts:301-303 | a long header is a first octet with the highest bit set |
| `CertPublishing.StepKeepsDirs` | tools/interop/prepare-certs.ts:288-326 | every step of every process keeps what is not pending verified and whole |
| `CertPublishing.StepKeepsPointers` | tools/interop/prepare-certs.ts:203-204 | no staging write, however interleaved, makes a current file look like a pending name |
| `CertPublishing.ResolvedIsWhole` | tools/interop/prepare-certs.ts:154-205 | in every interleaving, a current file that resolves names a directory moved in whole after verification |
| `CertPublishing.ReaderSeesWhole` | tools/interop/prepare-certs.ts:163-179 | that holds even if name, certificate and key are looked at in different states, and stays so |
| `CertPublishing.RunKeepsPublished` | tools/interop/prepare-certs.ts:194-205 | a published directory never changes again |
| `CertPublishing.PointerTextRead` | tools/interop/prepare-certs.ts:159-160 | a fully written pointer reads back as the generation's name |
| `CertPublishing.TrimExact` | tools/interop/prepare-certs.ts:159 | trimming takes all spaces off both ends, and nothing else |
| `CertPublishing.WriteAtExact` | tools/interop/prepare-certs.ts:203 | a write at an offset replaces what is there, fills a gap with NULs and keeps the rest |
| `CertPublishing.FirstPublication` | tools/interop/prepare-certs.ts:288-326 | from nothing, one undisturbed process ends with its pair published and resolved, and nothing else |
| `CertPublishing.FailureCleansUp` | tools/interop/prepare-certs.ts:320-324 | a process that fails takes its temporary directory with it, and nothing else |
| `CertPublishing.CertDirectory.WriteStagedPointer` | tools/interop/prepare-certs.ts:203 | an undisturbed write leaves the whole name in the staged file |
| `CertPublishing.CertDirectory.PublishAtomically` | tools/interop/prepare-certs.ts:194-205 | undisturbed, the three steps end with the current file resolving to the new, verified generation |
| `CertPublishing.SpacesExact` | tools/interop/prepare-certs.ts:159 | the code units that are trimmed from a generation name |
| `CertPublishing.NamesExact` | tools/interop/prepare-certs.ts:194-197 | pending and generation names are never mistaken for each other |
| `Sessions.PlansAddUp` | tools/load/distributed-scale.ts:2094-2108 | the plans add up to the sessions |
| `Sessions.FirstClientsWork` | tools/load/distributed-scale.ts:2094-2108 | dropping empty plans keeps exactly the first min(sessions, clients) clients |
| `Sessions.PlansBalanced` | tools/load/distributed-scale.ts:2096-2102 | any two plans differ by at most one session |
| `Sessions.PlansNamed` | tools/load/distributed-scale.ts:2094-2108 | plans name their clients in order, and a server's port is its own |
| `Sessions.ServersBalanced` | tools/load/distributed-scale.ts:2099-2104 | two servers differ by at most one client |
| `Sessions.CapAt` | tools/load/distributed-scale.ts:2564-2570 | a server's cap is what the plans sent to it request |
| `Sessions.CapsAddUp` | tools/load/distributed-scale.ts:2564-2570 | the servers' caps add up to the sessions |

## Left out

- TarCodec.ReadTar: starts after inflation, and refuses header names with bytes above 127; the source decodes those as UTF-8.
- TarCodec.ScanMembers: likewise refuses header names with bytes above 127.
- TarCodec.Canonical: is about names in ASCII and member sizes below 2^53 bytes, the largest a byte array can have.
- Buckets.QuantizationBound: is about exact arithmetic; `Math.log2` and doubles are taken as exact.
- Histogram.LatencyHistogram.Record: samples are numbers or NaN; infinities are not modelled.
- Steering.SteerProgram.Steer: treats a datagram as bytes; kernel helpers are their documented effect.
- Promotion.PromotionCompletes: git ancestry checks and the contents of verification enter as parameters.
- Promotion.TornExactly: takes every file write as atomic; bind writes its status file without a rename.
- Upload.UploadCommand: starts after the local files have been validated; authentication, staging and validation of fragments are not modelled.
- Upload.WithRetries: the waiting times between attempts are not modelled.
- Manifest.Import: fragments are taken as already validated, and ids are sorted by code unit instead of by locale.
- Claims.CheckClaimBindings: messages are values instead of sentences.
- Privacy.SanitizedPasses: the patterns for unsafe strings and secret keys stay abstract; the redaction marker is assumed safe.
- Schemas.ProblemsExact: string kinds and key patterns stay abstract, every oneOf has an option, and `in` is membership in the object's own keys.
- Content.ContentProblems: UTF-8 decoding, JSON parsing and globs enter as parameters.
- OpaqueRun.OpaqueRunReason: the character classes, the decoders and the churn measure stay abstract.
- FaultEngine.SeededUdpFaultEngine.PlanNext: is generic in its generator, with profile defaults filled in; sockets and timers are not modelled.
- CertPublishing.ResolvedIsWhole: assumes that temporary and generation names are never handed out twice; verification of a directory is one step; the lock and its staleness rule are not modelled.
- Sessions.PlansAddUp: launch configurations are not modelled.
- Gzip, SHA-256, UTF-8 decoding and JSON text are library code.
- The transport itself, the examples, the benchmark runners and the text scanners over workflows and documentation.
- Log scrubbing and environment redaction in `tools/interop/evidence-privacy.ts`.
