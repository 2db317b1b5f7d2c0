# Proofs about zs3server

zs3server is an S3 object server derived from MinIO, with a listing that merges a backend and
a cache. This project models the parts of it whose correctness does not show in one body:
shard files protected against bit rot, the merged listing, the object-lock gates, the registry
and the result buffer of heal sequences, the healing tracker of a disk, the transition worker
pool, the replication codecs, the restore header and the S3 URL encoder. Code that updates
fields, arrays or local variables is a class or a method with loops, proved against a function
on values; the theorems are about those functions, over all inputs and all runs.

## Modules

| files | subject |
|---|---|
| `BitrotLayout`, `BitrotStreaming`, `BitrotVerify`, `BitrotWhole`, `BitrotAgreement`, `ErasureOffsets`, `ErasureDecode` | the layout hash, block, hash, block, ..., its writer, its two decoders, the whole-file format, and the reads and writes of the erasure decoder |
| `ListOrder`, `ListMerge`, `ListPaging`, `ListRuns` | lexicographic order, merging two pages, one page, following the markers |
| `ObjectLock` | the four retention gates and runs of requests on a version |
| `HealResults`, `HealRegistry`, `HealState` | results pushed and popped, sequences launched, ended, stopped and cleaned |
| `HealingTracker`, `HealingRuns` | the healing tracker of a disk, with checkpoints and restarts |
| `RestoreStatus` | the restore header of a transitioned object |
| `TransitionPool` | workers, kill signals and tasks, in any interleaving |
| `ReplicationDecision`, `ReplicationStatus`, `ReplicationState` | printing and parsing replication decisions and statuses |
| `Basics` | what several modules share |
| `S3UrlEncode` | percent-encoding with `+` for space (section 2.1 of RFC 3986) |

Digests are an arbitrary function with a fixed positive size. Clocks, disk answers, parsed
headers, policy answers, map iteration orders and thread schedules are parameters, events or
nondeterministic choices, so every theorem holds for all of them.

## Where the code does not do what one would expect

Each of these is proved as it is, with a concrete input or for a whole family of inputs, and
with the exact condition under which the expected property holds:

- The comment on the upload gate (cmd/bucket-object-lock.go:259-260) says a governance version
  may be overwritten once its date has passed. The gate looks at the date in compliance mode
  only. `GovernanceOverwrittenBeforeDate` overwrites one early, and `GovernanceIsKeptExactly`
  says which runs keep such a version: those without an overwrite of a described kind.
- Finishing a bucket deletes from a slice while ranging over it. `RepeatedBucket` shows a queue
  on which one occurrence is left behind and one on which the deletion is out of bounds;
  `DeletionExact` says which queues are handled right.
- A stop removes its path in a later critical section. `UnsafeStopIsReachable` gives the steps
  by which it removes another, running, sequence; `StepKeepsRegistered` gives the exact
  condition, and `UnsafeStopAdmitsOverlap` shows that breaking it always admits an overlap.
- After an error of its first call the whole-file reader keeps the buffer it made for that call and
  hands it out on later calls: bytes that failed verification, zeros past the end of a short
  file, or, when the disk itself failed, whatever was read before and zeros
  (`RetryIsAnswered`). So even an intact file is answered with zeros after one failed disk read
  (`RetryReturnsZeros`). `CallsGenuineExactly` says for which calls and disk answers every
  answer is genuine, `ServedGenuineExactly` what is left of that when the disk serves. The
  erasure decoder drops a reader after any error (cmd/erasure-decode.go:165-175), so only
  another caller of ReadAt can meet this.
- A target with an empty status is printed, but the regular expression does not find it again: it
  takes the entry after it for the status (`EmptySwallowsNext`). `RecoveryExact` says which
  target lists are found again as they were, and `EmptyStatusIsLost` that among otherwise
  findable targets these are the lists without an empty status. With plain ARNs `FoundExact`
  says what is found of any list. Purging a version reports no replication status at all
  (cmd/bucket-replication.go:500-560), and what is rebuilt then is no status for one target and
  pending for several (`PurgedVersionStatus`).
- Replicating an object or a delete makes room for every target and leaves an empty entry for each
  one it does not reach or passes over (cmd/bucket-replication.go:397-424 and 888-902). Printing skips these
  entries, the status of the list counts them, and both are stored together
  (cmd/bucket-replication.go:913-926). With one target completed and one not reached the list says
  pending and the state rebuilt from the printed statuses says completed (`UnreachedTarget`,
  and `UnreachedPurge` for a purged version). `StateAgreesWithList` and `PurgeStatusExact` say
  exactly when the two agree.
- A malformed legal-hold header makes the upload gate return the wrong error variable, which is
  nil (cmd/bucket-object-lock.go:314-319). `MalformedHoldIsAdmitted` says exactly when such an
  upload is admitted. `DefaultRetentionExact` says exactly when an upload keeps the default
  retention of its bucket: a malformed or a lone legal-hold header loses it
  (`MalformedHoldLosesRetention` is an instance), and then nothing but a requested hold keeps the
  version from being deleted at once (`LostRetentionIsOpen`). The gate also takes the answer to
  the legal-hold permission check and never looks at it (cmd/bucket-object-lock.go:264), although
  its comment expects that permission; the model therefore has no such field.

## Model

| member | source | states |
|---|---|---|
| BitrotLayout.CeilFracIsCeiling | cmd/utils.go:691-706 | for a non-zero denominator of either sign the result is the one integer k with k-1 < n/d <= k |
| BitrotLayout.SizeFormula | cmd/bitrot.go:150-155 | the length counted block by block is the closed formula with rounding up |
| BitrotLayout.StreamLength | cmd/bitrot-streaming.go:99-104 | the stream of any payload, the size announced on creation and the size the checker expects are equal |
| BitrotLayout.OtherSizes | cmd/bitrot-streaming.go:99-104 | a file protected as a whole has the size of its payload, and an unknown length is announced as unknown |
| BitrotLayout.AlignedOffset | cmd/bitrot-streaming.go:153 | the stream position computed for an aligned payload offset is the length of the stream of the blocks before it |
| BitrotLayout.StreamConcat | cmd/bitrot-streaming.go:43-65 | whole blocks laid down one after the other give the stream of the concatenation |
| BitrotLayout.StreamInjective | cmd/bitrot-streaming.go:43-65 | a stream determines the payload of a given length, whatever the digest function |
| BitrotLayout.PayloadIsProtected | cmd/bitrot-streaming.go:142-189 | what is found block by block is a payload of that length whose stream the file starts with |
| BitrotLayout.ProtectedIsFound | cmd/bitrot-streaming.go:142-189 | a file that starts with the stream of a payload is found block by block to hold exactly that payload |
| BitrotStreaming.StreamingBitrotWriter.Write | cmd/bitrot-streaming.go:43-65 | success exactly when both writes take everything, then digest and block are appended in this order; what is appended, returned and which error is given in every other case, and that an error closes the writer |
| BitrotStreaming.WellChunkedWritesStream | cmd/bitrot-streaming.go:43-65 | chunks of the shard size, the last possibly shorter, empty ones anywhere, write the stream of the payload |
| BitrotStreaming.WritePayload | cmd/bitrot-streaming.go:92-108 | driving the writer over a payload produces its stream, of the announced size |
| BitrotStreaming.StreamingBitrotReader.ReadAt | cmd/bitrot-streaming.go:142-189 | on an opened stream the block if its digest matches, corruption exactly when it is there and does not match, end of stream exactly when it is not there in full; a misplaced read and a failed disk give their own errors; only a good block moves the reader on |
| BitrotStreaming.OpenRunAccepts | cmd/bitrot-streaming.go:142-189 | block reads from an opened stream succeed if and only if it starts with the stream of some payload, and return that payload |
| BitrotStreaming.OpenRunFails | cmd/bitrot-streaming.go:171-188 | otherwise the first error comes at the first block that is not intact: corruption when it is there, end of stream when it is not |
| BitrotStreaming.OpenAtBlock | cmd/bitrot-streaming.go:148-165 | opening at a block boundary yields exactly the stream of the payload bytes up to the limit |
| BitrotStreaming.ReaderReturnsPayload | cmd/bitrot-streaming.go:142-204 | reads from an aligned start to any block boundary or the end within the limit succeed and return exactly the payload bytes |
| BitrotVerify.ProtectedFileIsStream | cmd/bitrot.go:171-209 | a file is protected exactly when it has the expected size and its blocks are found one by one |
| BitrotVerify.Round | cmd/bitrot.go:184-208 | one round of the loop refutes the file or keeps the invariant; what is left never goes negative and the block length shrinks on the last block only |
| BitrotVerify.VerifyBlocks | cmd/bitrot.go:184-208 | the loop ends and finds the truth about the file |
| BitrotVerify.Verify | cmd/bitrot.go:158-210 | streaming: no error if and only if the first wantSize bytes are the writer's stream of some payload of partSize bytes; for a shard size of zero or less, if and only if the size fits and the file holds digests of empty blocks; for a negative part size, if and only if the size fits; whole file: if and only if size and digest match; a file of full length that fails is reported as corrupt |
| BitrotWhole.WholeBitrotWriter.Write | cmd/bitrot-whole.go:38-50 | file and hashed bytes after the call, for every combination of failures |
| BitrotWhole.WritePayload | cmd/bitrot-whole.go:38-50 | file and digest do not depend on how the payload was cut into chunks |
| BitrotWhole.WholeBitrotReader.ReadAt | cmd/bitrot-whole.go:71-86 | the first call gives the error of its reason: a failed disk, a short file, a digest that differs, too little asked for; later calls answer from the buffer; the buffer after every call, also when the disk fails after filling part of it |
| BitrotWhole.BufferedRun | cmd/bitrot-whole.go:79-85 | reads from the filled buffer return its bytes in order and fail exactly when they ask for more than there is |
| BitrotWhole.ReaderReturnsPayload | cmd/bitrot-whole.go:71-86 | on an intact file consecutive reads return the payload and fail exactly past the limit |
| BitrotWhole.NoUncheckedFirstRead | cmd/bitrot-whole.go:72-78 | the first call returns bytes only of a file the disk served and whose digest matches |
| BitrotWhole.BufferGenuine | cmd/bitrot-whole.go:79-85 | calls on a buffer with any content are answered genuinely if and only if none is answered, or the digest matches and what they get is what the file holds there |
| BitrotWhole.CallsGenuineExactly | cmd/bitrot-whole.go:71-86 | over any sequence of calls that goes on after errors, with any disk answers, every answer is a part of a file whose digest matches if and only if no call is answered from the buffer, or the digest matches and what is answered is what the file holds there |
| BitrotWhole.ServedGenuineExactly | cmd/xl-storage.go:1448-1538 | when the disk serves the first call: if and only if the file is intact, or none is answered, or a matching file that ends early is not read past its end |
| BitrotWhole.RetryIsAnswered | cmd/bitrot-whole.go:72-86 | after a failed first call the next is answered if and only if it asks for at most what the buffer holds, with what was read before the failure and then zeros |
| BitrotWhole.RetryReturnsZeros | cmd/bitrot-whole.go:72-86 | an intact file, one failed disk read, and a retry that returns zeros |
| BitrotAgreement.ReaderAcceptsStream | cmd/bitrot-streaming.go:142-204 | reading a file of any content from start to end succeeds if and only if it starts with the stream of some payload |
| BitrotAgreement.ReaderFailsAtCorruption | cmd/bitrot-streaming.go:183-186 | a file of full length that is not a stream gives a corruption error, at the first block whose digest differs |
| BitrotAgreement.ShortFileIsCorrupt | cmd/xl-storage.go:1647-1652 | a file on disk that is too short is refused as corrupt when it is opened |
| BitrotAgreement.VerifierAndReaderAgree | cmd/bitrot.go:184-208 | the check and the reader accept the same files, and the reader yields the payload the check vouches for |
| BitrotAgreement.ReadersAgree | cmd/bitrot-whole.go:71-86 | over the same payload in their own formats both readers return the same blocks for the same reads |
| ErasureOffsets.BlockInFile | cmd/erasure-coding.go:122-138 | a block of the object has a shard in the file exactly when it holds some byte, a full one unless it is the last |
| ErasureOffsets.UnknownSize | cmd/erasure-coding.go:127-150 | an unknown size stays unknown, and the opened range never ends past the file |
| ErasureOffsets.EmptyBlock | cmd/erasure-decode.go:231-249 | the decode loop breaks on an empty block exactly when it has passed the last block that holds a requested byte |
| ErasureOffsets.ReadsStayInside | cmd/erasure-coding.go:141-150 | the opened range and the reads end at a block boundary or with the file, and the reads stay inside |
| ErasureOffsets.DecodeReads | cmd/erasure-decode.go:225-253 | the reads the decode loop issues on a shard file are consecutive block reads from the first to the last needed shard, cut at the end of the file |
| ErasureOffsets.DecodeReadsSucceed | cmd/erasure-decode.go:100-180 | for every requested range those reads succeed on an intact shard file and return its payload in the range |
| ErasureDecode.FileOfShards | cmd/erasure-coding.go:127-138 | the file of a data shard has the size computed for it, and cut at the shard size it falls into the shards of the blocks |
| ErasureDecode.ReadsAreChunks | cmd/erasure-decode.go:100-180 | the decoder's reads on an intact data shard file are the pieces of its range |
| ErasureDecode.ReadIsShard | cmd/erasure-decode.go:110-117 | read number k is the shard of the k-th block of the range |
| ErasureDecode.WriteDataBlocks | cmd/erasure-utils.go:43-118 | the loop over the shards writes the requested window of the joined shards, or refuses with the error of the failed check |
| ErasureDecode.BlockRange | cmd/erasure-decode.go:231-249 | what the loop cuts from a block leads from its position in the object to the next block's |
| ErasureDecode.Decode | cmd/erasure-decode.go:206-285 | with all data shards intact the decoder writes exactly the bytes of the object in the requested range, for every range, and refuses exactly the ranges outside it |
| ErasureDecode.IntactFilesSuffice | cmd/erasure-decode.go:206-285 | readers on protected files of the data shards give the reads the decoder needs |
| ListOrder.LessAtDifference | cmd/bucket-listobjects-handlers.go:114 | where two keys first differ, or one ends, the smaller character, or the shorter key, comes first |
| ListOrder.SortStrings | cmd/bucket-listobjects-handlers.go:113-116 | the result holds exactly the given keys, each coming before the next in character order |
| ListOrder.FirstOfUnion | cmd/bucket-listobjects-handlers.go:101-130 | the first n of the union are the first n of the union of the two first n |
| ListMerge.MergeKeepsNewest | cmd/bucket-listobjects-handlers.go:53-75 | the merged map holds for exactly the listed names the newest object, the earliest of equals |
| ListMerge.MergeListObjects | cmd/bucket-listobjects-handlers.go:53-75 | the result lists exactly the contents of the merged map, each name once |
| ListMerge.MergePrefixes | cmd/bucket-listobjects-handlers.go:77-99 | the result holds exactly the prefixes of both lists, each once |
| ListMerge.CutPage | cmd/bucket-listobjects-handlers.go:117-129 | the loop with its early exit gives the first maxKeys sorted keys, at least one, split by kind, and a marker exactly when there are that many |
| ListMerge.LimitMergeObjects | cmd/bucket-listobjects-handlers.go:101-130 | so many keys, at least one, that come before all others in character order, objects and prefixes each in that order; prefixes shadow objects; the last key as the marker exactly when the page is full |
| ListPaging.ListHandler | cmd/bucket-listobjects-handlers.go:505-513 | the merge of two pages: its own marker wins, else the backend's answer stays |
| ListPaging.NewestMerged | cmd/bucket-listobjects-handlers.go:53-75 | merging truncated pages still finds the newest object of the complete sources, ties to the backend |
| ListPaging.PageOfUnion | cmd/bucket-listobjects-handlers.go:367-375 | a merged page equals the page of the union: its first n keys after the marker with their newest objects, truncated exactly when full |
| ListRuns.PageShows | cmd/bucket-listobjects-handlers.go:367-375 | objects and prefixes of an answer together are the first n keys of the union after the marker, each once |
| ListRuns.AfterPage | cmd/bucket-listobjects-handlers.go:122-125 | the keys after a full page's marker are exactly the keys not yet shown |
| ListRuns.RunCoversUnion | cmd/bucket-listobjects-handlers.go:505-513 | following the markers from any marker shows the union after it in ascending order, every key once: all of it when the last answer is not truncated, else so many full pages |
| ListRuns.RunIsBounded | cmd/bucket-listobjects-handlers.go:505-513 | a listing has at most total/n + 1 pages, and its last answer is untruncated exactly when it has that many |
| ListRuns.WholeListing | cmd/bucket-listobjects-handlers.go:505-513 | a finished listing from the start shows keys, objects and prefixes of the whole union, sorted |
| ListRuns.ListingFinishes | cmd/bucket-listobjects-handlers.go:505-513 | from every marker there is a listing that ends |
| ObjectLock.ComplianceStep | cmd/bucket-object-lock.go:60-82 | no request before the date changes the upload, the mode or shortens the date of a compliance version |
| ObjectLock.ComplianceIsKept | cmd/bucket-object-lock.go:90-174 | the same after every prefix of every run with a clock that does not go back, also when the trusted clock fails |
| ObjectLock.UploadExactly | cmd/bucket-object-lock.go:264-356 | an upload is admitted if and only if its options parse, the version it names does not stand in the way and its headers are acceptable; without a lock, if and only if it has no lock headers |
| ObjectLock.UploadIsStoredAsAsked | cmd/bucket-object-lock.go:321-334 | a permitted upload with well-formed headers is stored with exactly the mode, the date and the hold it asks for |
| ObjectLock.OtherUploads | cmd/bucket-object-lock.go:335-356 | what every other upload that names no version is stored as: the default retention from its time on, or none, and the hold of its header |
| ObjectLock.OverwriteInherits | cmd/bucket-object-lock.go:293-312 | an overwrite without lock headers keeps the retention and the hold status of the version it replaces |
| ObjectLock.UploadIsKept | cmd/bucket-object-lock.go:321-334 | from the moment it is stored an upload in compliance mode until a date is kept until that date, over every run |
| ObjectLock.DefaultIsKept | cmd/bucket-object-lock.go:338-354 | the same of the default retention of the bucket, from the time of the upload |
| ObjectLock.DeleteExactly | cmd/bucket-object-lock.go:90-174 | a version may be deleted if and only if it is not held and has no retention, or one past its date, or one in governance mode with bypass and permission; bypass without permission is denied |
| ObjectLock.ChangeExactly | cmd/bucket-object-lock.go:182-252 | the retention may be changed if and only if the clock answers, the request is permitted and does not weaken it, or comes after its date, or bypasses governance |
| ObjectLock.MalformedHoldIsAdmitted | cmd/bucket-object-lock.go:314-319 | with a malformed legal-hold header an upload is admitted if and only if its options parse and the version it names does not stand in the way; it is stored without a hold and with that version's retention or none |
| ObjectLock.DefaultRetentionExact | cmd/bucket-object-lock.go:321-356 | in a bucket with default retention an admitted new upload is stored with retention if and only if it has no legal-hold header, or a valid one next to valid retention headers |
| ObjectLock.LostRetentionIsOpen | cmd/bucket-object-lock.go:60-82 | an upload that lost the default retention can be deleted and expired at any time if and only if it did not ask for the hold |
| ObjectLock.MalformedHoldLosesRetention | cmd/bucket-object-lock.go:314-319 | a concrete upload, with the header and without |
| ObjectLock.GovernanceStep | cmd/bucket-object-lock.go:293-312 | without bypass a request before the date keeps a governance version if and only if it is not an overwrite of the open kind |
| ObjectLock.GovernanceIsKeptExactly | cmd/bucket-object-lock.go:264-356 | a run without bypass before the date keeps a governance version if and only if it holds no such overwrite |
| ObjectLock.GovernanceOverwrittenBeforeDate | cmd/bucket-object-lock.go:293-312 | a concrete overwrite before the date |
| ObjectLock.LegalHoldIsKept | cmd/bucket-object-lock.go:60-82 | under legal hold a version survives every run, whatever dates and bypass headers |
| HealResults.HealSequence.PushHealResultItem | cmd/admin-heal-ops.go:577-633 | accepted exactly when fewer than 1000 results wait, with the next index; otherwise nothing changes and the outcome is that of the event that came first |
| HealResults.HealSequence.PopHealStatus | cmd/admin-heal-ops.go:340-384 | hands out and drops everything held, also when encoding fails; a wrong token changes nothing |
| HealResults.StepIsConsistent | cmd/admin-heal-ops.go:362-383 | every push and pop keeps popped and held results together equal to the accepted ones, numbered |
| HealResults.RunLosesNothing | cmd/admin-heal-ops.go:592-630 | for every interleaving the popped followed by the held items carry indexes 1, 2, 3, ... and at most 1000 are held |
| HealResults.PopMakesRoom | cmd/admin-heal-ops.go:592-630 | after a pop the next thousand pushes are all accepted |
| HealRegistry.StepKeepsDisjoint | cmd/admin-heal-ops.go:299-317 | launch, end, stop and clean keep running registered paths free of prefixes of one another |
| HealRegistry.RegisteredPathsDisjoint | cmd/admin-heal-ops.go:280-334 | in every reachable state no two running registered sequences overlap |
| HealRegistry.LaunchExactly | cmd/admin-heal-ops.go:299-317 | a launch is admitted if and only if no sequence that is not over has a path that is a prefix of the new one or the other way round |
| HealRegistry.CleanKeepsTenMinutes | cmd/admin-heal-ops.go:197-206 | a clean-up removes exactly the sequences that ended more than ten minutes ago, never the background sequence |
| HealRegistry.StopWaits | cmd/admin-heal-ops.go:236-268 | a stop removes a path only after it was asked for and the sequence it found has ended |
| HealRegistry.EndedStaysEnded | cmd/admin-heal-ops.go:642-683 | along every run an ended sequence stays ended, with the same end time |
| HealRegistry.StepKeepsRegistered | cmd/admin-heal-ops.go:256-263 | a step keeps every running sequence registered if and only if it is not a stop that removes a running one |
| HealRegistry.SafeRunsNeverOverlap | cmd/admin-heal-ops.go:236-268 | without such stops running sequences never overlap, registered or not |
| HealRegistry.UnsafeStopAdmitsOverlap | cmd/admin-heal-ops.go:236-268 | after such a stop the next launch on the path is admitted and two running sequences overlap |
| HealRegistry.UnsafeStopIsReachable | cmd/admin-heal-ops.go:236-268 | such a stop occurs: a launch between the end of the stopped sequence and the removal |
| HealState.AllHealState.OverlapsRunning | cmd/admin-heal-ops.go:299-311 | the loop finds a running sequence on an overlapping path exactly when there is one |
| HealState.AllHealState.Register | cmd/admin-heal-ops.go:299-317 | admitted exactly when no running path overlaps; the new state is the registry's launch step |
| HealState.AllHealState.End | cmd/admin-heal-ops.go:642-683 | recording an end is the registry's end step |
| HealState.AllHealState.GetHealSequence | cmd/admin-heal-ops.go:229-234 | a lookup starts a stop of exactly the sequence found |
| HealState.AllHealState.FinishStop | cmd/admin-heal-ops.go:256-263 | removing the path is the registry's stop step |
| HealState.AllHealState.DeleteExpired | cmd/admin-heal-ops.go:200-204 | deleting while ranging removes exactly the sequences that ended more than ten minutes ago |
| HealState.AllHealState.Clean | cmd/admin-heal-ops.go:188-212 | the periodic clean-up is the registry's clean step |
| HealingTracker.SkippingExact | cmd/background-newdisks-heal-ops.go:191-203 | what the deletion leaves is the queue without the bucket if and only if no two neighbours are both that bucket |
| HealingTracker.DeletionExact | cmd/background-newdisks-heal-ops.go:191-203 | finishing a bucket succeeds and removes it if and only if the queue has no two neighbouring occurrences and does not end in a second one |
| HealingTracker.DistinctIsHarmless | cmd/background-newdisks-heal-ops.go:191-203 | on a duplicate-free queue exactly the bucket goes, in order and in bounds |
| HealingTracker.RepeatedBucket | cmd/background-newdisks-heal-ops.go:191-203 | queues on which an occurrence stays behind and on which the deletion is out of bounds |
| HealingTracker.SweepDeletes | cmd/background-newdisks-heal-ops.go:195-201 | a deletion in the shared backing array keeps the loop invariant of the sweep |
| HealingTracker.Tracker.IsHealed | cmd/background-newdisks-heal-ops.go:172-179 | true exactly for the healed buckets |
| HealingTracker.Tracker.Resume | cmd/background-newdisks-heal-ops.go:182-187 | the counters go back to the resume point |
| HealingTracker.Tracker.RemoveFromQueue | cmd/background-newdisks-heal-ops.go:195-201 | the loop over the aliased slice panics exactly on a late last occurrence, else leaves the queue of the specification |
| HealingTracker.Tracker.BucketDone | cmd/background-newdisks-heal-ops.go:191-203 | resume point, healed list and queue after finishing a bucket |
| HealingTracker.Tracker.SetQueuedBuckets | cmd/background-newdisks-heal-ops.go:207-215 | the queue becomes the given buckets that are not healed, in order |
| HealingRuns.DoneAccounts | cmd/background-newdisks-heal-ops.go:191-203 | finishing the bucket in hand removes exactly it from the queue and moves what was counted for it into the resume point |
| HealingRuns.RunIsSound | cmd/global-heal.go:166-341 | after every run of sweeps, saves and reloads, in memory and on disk: queued and healed are disjoint and duplicate-free, the resume point is the total of what the surviving events counted for the healed buckets, the counters add the one unfinished bucket, and the sweep visits unhealed buckets only |
| HealingRuns.ResumeCountsHealedBuckets | cmd/background-newdisks-heal-ops.go:182-187 | after any run resuming leaves, modulo 2^64, the sum over exactly the healed buckets of what was counted for each since it was last entered from another bucket |
| HealingRuns.NothingIsLost | cmd/global-heal.go:178-341 | without a reload everything ever counted for a bucket is counted, and nothing for a bucket the sweep has yet to visit |
| HealingRuns.InHand | cmd/global-heal.go:183-192 | while a bucket is in hand the counters are the totals of the healed buckets and of this one, also when it was begun before a reload |
| HealingRuns.SavedWithoutBucket | cmd/global-heal.go:337-338 | a saved tracker that names no bucket has no unfinished counts, since the end of a sweep is never saved |
| HealingRuns.SavedListGrows | cmd/background-newdisks-heal-ops.go:172-215 | the saved healed list only grows; the list in memory shrinks at reloads only |
| TransitionPool.RunKeepsBalance | cmd/bucket-lifecycle.go:204-222 | every interleaving keeps the books of workers, kills, tasks and the resize under way |
| TransitionPool.TargetIsLastRequest | cmd/bucket-lifecycle.go:226-239 | the size the pool heads for is the one last asked for |
| TransitionPool.ReachableAccounting | cmd/bucket-lifecycle.go:204-239 | in every reachable state live workers minus undelivered kills is numWorkers, active tasks never exceed live workers, and with all kills delivered exactly the last requested number is left |
| TransitionPool.InternalRunIsBounded | cmd/bucket-lifecycle.go:204-239 | without new requests only so many steps are possible |
| TransitionPool.PoolSettles | cmd/bucket-lifecycle.go:204-239 | left alone the pool comes to rest at the requested size, with no task counted and no kill pending, under every schedule |
| TransitionPool.TransitionState.UpdateWorkers | cmd/bucket-lifecycle.go:226-239 | a resize is a run of the machine that spawns or kills the difference, never both |
| RestoreStatus.RestoreRoundTrip | cmd/bucket-lifecycle.go:657-729 | a printed restore status parses back, whatever the date format, as long as dates do |
| RestoreStatus.Printed | cmd/bucket-lifecycle.go:657-662 | the text of both headers |
| RestoreStatus.OngoingExact | cmd/bucket-lifecycle.go:694-729 | a header parses as an ongoing restore if and only if it is the printed one up to white space around the name |
| RestoreStatus.CompletedExact | cmd/bucket-lifecycle.go:694-729 | a header parses as a restore completed until t if and only if it has the two names, up to white space, and a date that parses as t |
| ReplicationDecision.TargetRoundTrip | cmd/bucket-replication-utils.go:180-182 | one printed target parses back |
| ReplicationDecision.ParsePairExactly | cmd/bucket-replication-utils.go:294-316 | a pair is accepted if and only if it is a key, one equals sign and the text of a target, perhaps in quotes: two booleans in any accepted spelling, ARN and id between semicolons |
| ReplicationDecision.PrintedText | cmd/bucket-replication-utils.go:218-224 | the text of a printed pair |
| ReplicationDecision.CharCleanRoundTrip | cmd/bucket-replication-utils.go:286-318 | in any iteration order the parse of the printed map is the map, except for one quote at the end of an id |
| ReplicationDecision.ParsedIsClean | cmd/bucket-replication-utils.go:286-318 | whatever parses has no separator in the wrong place |
| ReplicationDecision.RoundTripExact | cmd/bucket-replication-utils.go:286-318 | a decision survives printing in any order and parsing if and only if it holds no separators there and no id ends in a quote |
| ReplicationDecision.PrintDecision | cmd/bucket-replication-utils.go:218-224 | the printing loop writes the pairs in some order of the map's keys |
| ReplicationDecision.ParseDecision | cmd/bucket-replication-utils.go:286-318 | invalid if and only if some piece between commas is not an accepted pair; what is parsed comes from the pairs; nothing gives the empty decision |
| ReplicationStatus.MatchHereIsPreferred | cmd/bucket-replication-utils.go:157 | the matcher finds the match the lazy expression prefers, and none only when there is none |
| ReplicationStatus.EntryIsFound | cmd/bucket-replication-utils.go:414-425 | a printed entry in front of anything is found as it was |
| ReplicationStatus.PrintedIsFound | cmd/bucket-replication-utils.go:81-90 | all printed entries are found, in order |
| ReplicationStatus.ReplicationStatusesMap | cmd/bucket-replication-utils.go:414-425 | the loop builds the map of the matches |
| ReplicationStatus.ListStatus | cmd/bucket-replication-utils.go:92-127 | failed if and only if some target failed, complete if and only if there are targets and all are, empty if and only if there are none, else pending; for replication and for purging |
| ReplicationStatus.MapStatus | cmd/bucket-replication-utils.go:441-477 | the same for a map in any iteration order |
| ReplicationStatus.StatusesRoundTrip | cmd/bucket-replication-utils.go:414-458 | for distinct findable targets the reparsed map is exactly ARN to status and its statuses, hence its composite, are those of the list |
| ReplicationStatus.RecoveryExact | cmd/bucket-replication-utils.go:414-425 | for distinct ARNs the reparsed map is exactly ARN to status if and only if every target is findable |
| ReplicationStatus.FoundIsFindable | cmd/bucket-replication-utils.go:157 | whatever the expression finds in any text is a findable ARN and status |
| ReplicationStatus.EmptyStatusIsLost | cmd/bucket-replication-utils.go:81-90 | among targets findable but for an empty status the map is recovered if and only if no status is empty |
| ReplicationStatus.FoundExact | cmd/bucket-replication-utils.go:414-425 | what is found of any list of plain targets, empty statuses or not: a target with an empty status takes the next one with it, or is lost at the end |
| ReplicationStatus.EmptySwallowsNext | cmd/bucket-replication-utils.go:157 | the entry after an empty status is found as that status |
| ReplicationState.BuiltByArn | cmd/bucket-replication-utils.go:227-232 | after any sequence of Set calls every key is its target's ARN |
| ReplicationState.ReplicateDecision.Set | cmd/bucket-replication-utils.go:227-232 | the map with the target filed under its ARN |
| ReplicationState.ReplicateDecision.ReplicateAny | cmd/bucket-replication-utils.go:199-206 | true exactly when some target replicates |
| ReplicationState.ReplicateDecision.PendingStatus | cmd/bucket-replication-utils.go:235-243 | prints the replicating targets in some order of the keys |
| ReplicationState.PendingRoundTrip | cmd/bucket-replication-utils.go:235-243 | for every decision built by Set calls, in any order, the parse of the pending status is exactly the replicating targets if and only if their ARNs are findable |
| ReplicationState.PendingComposite | cmd/bucket-replication-utils.go:199-206 | the composite of the replicating targets is pending if and only if any replicates, else empty |
| ReplicationState.StateKeepsNamedStatus | cmd/bucket-replication-utils.go:345-365 | the status of a rebuilt state is that of the targets that were reached, or the replica's when there are none or it came later |
| ReplicationState.StateFailsExactly | cmd/bucket-replication-utils.go:345-365 | the rebuilt status is failed if and only if replication to some named target failed, or it is the replica's and that failed |
| ReplicationState.ReplicationStatusInternal | cmd/bucket-replication-utils.go:81-90 | the loop prints ARN, equals sign, status and semicolon for every target with an ARN, in order |
| ReplicationState.StateAgreesWithList | cmd/bucket-replication-utils.go:92-109 | it equals the status of the whole list if and only if there is no empty entry or some named target has not completed; where the replica's status counts, if and only if that is what the list says |
| ReplicationState.PurgedVersionStatus | cmd/bucket-replication.go:500-560 | for reports without any replication status the rebuilt state says none for one named target and pending for several, the list says pending unless it is empty |
| ReplicationState.UnreachedTarget | cmd/bucket-replication.go:888-902 | one target completed, one not reached: the list says pending, the state completed |
| ReplicationState.PurgeStatusExact | cmd/bucket-replication-utils.go:368-375 | the purge status of a rebuilt state is that of the targets that have one, and equals the list's own if and only if every entry has one or some is not complete |
| ReplicationState.UnreachedPurge | cmd/bucket-replication.go:397-424 | one target purged, one not reached: the list says pending, the state complete |
| S3UrlEncode.EncodeConcat | cmd/api-utils.go:77-93 | encoding distributes over concatenation |
| S3UrlEncode.DecodeEncode | cmd/api-utils.go:40-94 | the decoder recovers every input |
| S3UrlEncode.EncodeInjective | cmd/api-utils.go:40-94 | different names have different encodings |
| S3UrlEncode.EncodeByteExact | cmd/api-utils.go:24-34 | a letter, a digit and each of - _ . / * stands for itself, a plus sign for a space, and a percent sign with two upper-case hexadecimal digits of its value for every other byte; the encoder gives exactly that |
| S3UrlEncode.CanonicalIsImage | cmd/api-utils.go:77-93 | the encoder's outputs are exactly the strings made of such pieces |
| S3UrlEncode.EncodeLength | cmd/api-utils.go:57-65 | the required size is the length of the encoding |
| S3UrlEncode.NothingToHexEncode | cmd/api-utils.go:67-75 | with nothing to hex-encode only spaces change |
| S3UrlEncode.CountEscapes | cmd/api-utils.go:41-51 | the first pass counts the bytes to hex-encode and notices spaces |
| S3UrlEncode.FillEscaped | cmd/api-utils.go:77-93 | the second pass fills exactly the required bytes, in bounds, with the encoding |
| S3UrlEncode.FillSpaces | cmd/api-utils.go:67-75 | the space-only pass writes the encoding |
| S3UrlEncode.S3UrlEncoded | cmd/api-utils.go:40-94 | the result of all three paths falls into pieces that stand for the bytes of the name, in order, and decodes back |

## Left out

- HTTP handlers, routers, authentication, error tables, generated code: plumbing around the modelled functions; several error values become one where callers treat them alike.
- Storage, KMS, IAM and policy evaluation: their answers are parameters.
- The two listings made in parallel and their errors: each source is assumed to answer with its first maxKeys keys strictly after the marker, from contents that do not change during the listing; archive listings are not modelled.
- Paging with maxKeys = 0: the page still holds one key (`CutPage` says so), so markers and sources disagree; the paging theorems are for maxKeys >= 1, and `WholeListing` is for non-empty keys.
- ErasureDecode.Decode: the data shards are all read; reconstruction from parity, the choice and order of disks and a writer that fails are not modelled. The split of a block into zero-padded data shards is that of the Reed-Solomon library.
- ObjectLock.LegalHoldIsKept: requests that set the legal hold itself (cmd/object-handlers.go:3627) are not among the requests; with the permission for them they can clear it.
- HealResults.HealSequence.PushHealResultItem: timers are events; nothing is said about when the idle-timeout path returns.
- HealRegistry.RegisteredPathsDisjoint: path prefixes are case-sensitive, as on every system but Windows.
- TransitionPool.ReachableAccounting: shutdown and closed channels are not modelled.
- ObjectLock.ComplianceIsKept: metadata reads succeed and the bucket's lock stays enabled, with the overwrites of replication left out, as they skip the gate.
- 64-bit overflow of sizes and offsets; the wrap-around of the healing counters is modelled.
- Date formatting and parsing in the restore header: an abstract inverse pair.
- HealingRuns.RunIsSound: the removal of a tracker after a successful sweep, and the replacement of one that cannot be read, start a new run; the last object of a bucket, from which a listing goes on, is not modelled.
- Bucket metadata and bucket target caches, replication statistics, bootstrap checks: their maps and counters are updated without a law the code keeps.
