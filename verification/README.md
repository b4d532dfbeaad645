# Verified model of the p2p folder sync core

This project models the parts of the sync core that decide what data ends up on each peer, and
proves what they keep over every run and every input. Each mutex-protected method of the program is
one atomic step. Messages can be lost, repeated and reordered. `dafny verify dfyconfig.toml` checks
everything.

| file | what it covers |
|---|---|
| `VectorClocks.dfy` | the clock a peer updates in place, its order and join; the clock of a state declaration |
| `Causality.dfy` | the clock protocol over any number of peers, against Lamport's happened-before |
| `Text.dfy`, `ConflictMarkers.dfy` | lines of text; keeping one side of a conflict block by reading its markers |
| `LineMerge.dfy` | the two-way line merge |
| `ThreeWay.dfy` | the three-way text merge with a base |
| `Resolver.dfy` | conflict resolution, when peers converge, and (module `Convergence`) convergence over runs |
| `Chunking.dfy` | cutting a file, sorting and assembling chunks |
| `Assembly.dfy` | which chunks of different versions of a file assemble, and to what |
| `ChunkManager.dfy`, `TransferRuns.dfy` | receiving chunks of many files; whole delivery runs |
| `ChunkBuffer.dfy` | the fixed-size chunk buffer |
| `Operations.dfy` | the operation record that travels between peers |
| `Handler.dfy` | the receiver of operations and chunk messages |
| `Reception.dfy` | what the receiver makes of the messages about a file: copies of any versions, repeated, reordered and mixed |
| `SingleVersion.dfy` | the same for one version: exactly when and as what it is handed over |
| `Delivery.dfy` | the acknowledged sender |
| `EndToEnd.dfy` | sender and receiver together |
| `RateLimiter.dfy` | the token bucket |
| `Reconciliation.dfy` | dividing files among peers |
| `OperationLog.dfy` | the operation log, its compaction, and replay |
| `Finite.dfy`, `Arithmetic.dfy` | counting facts about finite sets and sequences; products |

Hashing, compression and decompression are parameters. Text is bytes. Times are integer nanoseconds.
Counters and timestamps of clocks and operations are 64-bit with wrap-around; sizes, offsets and token
counts are unbounded.

## What the code does not promise

These are places where an expected property fails. Each is settled by an exact condition, and a lemma
shows inputs on which the property fails.

- Clocks do not show everything that a peer was told. A renaming, or an operation that comes without a clock,
  is delivered without merging one. The clocks tell what happened before what exactly if nothing so delivered
  is forgotten (`Causality.ClocksTellAllExactly`); `Causality.RenameIsForgotten` is a run of three events.
- A peer's resolution order matters in general. All orders of arrival leave the same version exactly
  when one version beats every other one (`Resolver.ConvergenceNeedsDominator`). Timestamps that follow
  causality are enough for that; without them three versions can beat each other in a circle
  (`Resolver.CircularVersionsDiverge`).
- The two-way merge finds prefix and suffix independently. A pure insertion merges to the longer text
  exactly if both fit into it side by side (`LineMerge.InsertionMerges`); otherwise lines are repeated,
  and a text merged with itself comes out twice (`LineMerge.OverlapRepeatsLines`). A line of the first
  text can be lost, exactly when `LineMerge.EveryLineAccountedFor` says so: for instance an entry that both
  peers gave a new value, next to a line that they share (`LineMerge.RelabelledLineIsLost`,
  `LineMerge.EditedEntryIsLost`).
- Three different texts get a conflict block exactly if prefix and suffix cover at most one of them
  (`ThreeWay.BlockEmittedExactly`); otherwise one branch is returned and the other is dropped silently
  (`ThreeWay.OneBranchIsDropped`), as when one peer doubles a line and the other triples it
  (`ThreeWay.DoubledLineIsDropped`). In a block one side gives its branch back exactly if prefix and suffix
  fit into that branch (`ThreeWay.KeepSideGivesBranch`); a branch that keeps one line `x` of `x`, `y`, `x`
  is not in the block (`ThreeWay.BlockLosesShortBranch`). The result can be the base although both branches
  changed it, exactly if the base is the very block that is emitted (`ThreeWay.ResultIsBaseExactly`): a block
  that the peers resolve differently comes back (`ThreeWay.BlockResolvedBothWaysComesBack`).
- The success of the sender does not mean that the file gets through. The receiver appends every chunk it
  handles, also the copies that the retry loop sends after a lost acknowledgment. A file in chunks is
  handed over exactly if at some time its announcement is followed directly by every chunk once
  (`EndToEnd.Transfer.SentFileIsHandedOver`). One lost acknowledgment is enough to have the sender report
  success and the receiver keep the file back for good (`EndToEnd.SuccessWithoutHandover`). On a real
  receiver `EndToEnd.LostAckLosesFile` shows this, with the acknowledgments that the receiver gives.
- Nor does it mean that every message was accepted: exactly a failure whose payload type is lost counts as
  success (`Delivery.Sender.SuccessMeansAccepted`, `Delivery.FirstAckCounts`), as in
  `Delivery.Sender.RefusalCountsAsSuccess`.
- A file in chunks can be handed over again with no announcement standing: as the bytes that were sent,
  compressed or not, under an operation without a path or a clock. This happens exactly if the chunks that
  came right after the announcement are followed directly by every chunk once more
  (`SingleVersion.Version.HandedOverAgainExactly`, and from sender to receiver
  `EndToEnd.Transfer.SentFileIsHandedOver`), as in `SingleVersion.Version.TwoChunksComeTwice`.
- An empty file is never handed over: its operation has no data and is taken for the announcement of
  chunks (`EndToEnd.Transfer.EmptyFileIsNeverHandedOver`).
- The receiver does not compare the announced operation with the bytes. Assembled bytes go out under the
  operation announced last, if the file has not been assembled since (`Handler.MetadataIsLastAnnounced`), and
  this operation has their checksum exactly if it has the hash that the last chunk announces
  (`Handler.HandedFitsExactly`). Chunks of a version that arrive after a newer announcement go out under the
  newer operation (`SingleVersion.Version.StaleChunksGoOutAsNewer`); chunks of several versions assemble
  exactly if together they are the bytes of one (`Reception.Channel.MixedPiecesAssembleExactly`).
- Compaction changes what a restart rebroadcasts exactly if an operation ID comes again after its row has
  been compacted away (`OperationLog.CompactionIsInvisibleToReplay`). IDs are made from the clock
  (internal/sync/operation.go:59-61), so nothing rules that out; `OperationLog.ReusedIDIsRebroadcast` shows
  it happen.
- Raising the rate of the limiter credits the time already passed at the new rate. The bound "burst plus
  rate times window plus one byte" holds in every window from a state exactly under the condition of
  `RateLimiting.WindowBoundExactly`; right after any call it holds as long as the rate is not raised
  (`RateLimiting.WindowsAfterCalls`). `RateLimiting.RaisingTheRateBreaksTheBound` raises it.
- A negative request is granted and credited. The bucket leaves its bounds exactly when that overfills it
  (`RateLimiting.StepKeepsBounds`, `RateLimiting.NegativeRequestOverfills`).
- A negative length in a chunk header makes assembling panic in some cases and not in others
  (`Chunking.NegativeLengths`); `Chunking.AssembleChunks` is stated wherever it does not panic.
- A merge result is newer than both inputs exactly if neither timestamp is at the 64-bit limit
  (`Resolver.MergeIsNewer`).
- `Merge` yields an upper bound of the incoming clock exactly if no counter missing from it is negative
  locally (`VectorClocks.JoinIsLeastUpperBound`, `VectorClocks.NegativeCounterIsNotRaised`).
- A chunk buffer for zero chunks never becomes complete (`ChunkBuffering.ChunkBuffer.IsComplete`).
- The comment at internal/sync/conflict/merge.go:21 and the feature list in the repository's README
  speak of a 3-way merge; `ThreeWayMerge` merges two texts without a base, and the model does that.

## Model

| member | source | states |
|---|---|---|
| VectorClocks.VectorClock.Increment | internal/sync/vectorclock.go:17-19 | ticks one entry, an absent one counting as 0, wrapping at 64 bits |
| VectorClocks.VectorClock.Merge | internal/sync/vectorclock.go:32-38 | in whatever order the map is visited, leaves the join of both clocks |
| VectorClocks.VectorClock.Compare | internal/sync/vectorclock.go:42-70 | decides the strict pointwise order over all peers: -1, 1, or 0 for neither |
| VectorClocks.VectorClock.IsConcurrent | internal/sync/vectorclock.go:73-75 | concurrent means below both ways or neither way |
| VectorClocks.JoinIsLeastUpperBound | internal/sync/vectorclock.go:32-38 | merging gives the least upper bound; exactly when it is above the incoming clock |
| VectorClocks.OrderIsStrict | internal/sync/vectorclock.go:42-70 | comparison flips under swapping, is irreflexive and transitive |
| Declaration.BuildClock | internal/state/declaration.go:89-93 | the loop yields the fold of merging over the operations |
| Declaration.FoldIsPointwiseMaximum | internal/state/declaration.go:89-93 | an entry is present exactly when some operation counts that peer, and is then the greatest counter carried |
| Declaration.FoldIgnoresOrderAndRepetition | internal/state/declaration.go:89-93 | the announced clock depends only on the set of operations |
| Causality.Engine.QueueOperation | internal/sync/engine.go:781-793 | a local operation ticks the own entry and carries a snapshot of the clock |
| Causality.Engine.HandleIncoming | internal/sync/engine.go:219-225 | incoming operations merge their clock, renames and operations without a clock do not |
| Causality.Replay | internal/sync/engine.go:61-84 | an engine starting from an empty clock and living through a run holds the clock of the run |
| Causality.ClocksNamePrefixes | internal/sync/engine.go:781-790 | invariant of every run: each entry of each clock names exactly the first so many operations of that peer, those its owner causally knows |
| Causality.StampNamesPast | internal/sync/engine.go:781-790 | an operation's clock names exactly its causal past |
| Causality.ClocksCaptureCausality | internal/sync/vectorclock.go:42-70 | in every run, for distinct operations, Compare is -1, 1 or 0 exactly when the first is before the second, after it, or neither, in Lamport's relation over the deliveries that merge a clock |
| Causality.ClocksTellAllExactly | internal/sync/engine.go:219-225 | counting every delivery, clocks decide what happened before what exactly if each operation delivered without merging its clock is otherwise known to the peer when it next issues one |
| Causality.RenameIsForgotten | internal/sync/engine.go:434-460 | an update issued after learning of a renaming whose clock does not show it |
| Resolver.ConflictResolver.CompareVectorClocks | internal/sync/conflict/resolver.go:50-78 | the resolver's copy decides the same order |
| Resolver.ConflictResolver.ResolveConflict | internal/sync/conflict/resolver.go:24-42 | causality decides; concurrent versions are merged or settled by last write |
| Resolver.CausalityDecides | internal/sync/conflict/resolver.go:24-42 | for every strategy and all contents the causally later version is the result; otherwise two non-empty texts are merged under the merge strategy, and else the later of the two is chosen |
| Resolver.EngineRecognisesResult | internal/sync/engine.go:284-294 | comparing file ID and checksum, the engine tells exactly whether it got one of the versions or a merge, and when it is a merge |
| Convergence.FollowUpWins | internal/sync/conflict/resolver.go:24-42 | of two edits in any run the one that follows the other is the result, for every strategy, in either order |
| Resolver.ConflictResolver.IntelligentMerge | internal/sync/conflict/resolver.go:97-111 | two non-empty texts are merged, anything else falls back to last write |
| Resolver.ThreeWayMerge | internal/sync/conflict/merge.go:22-44 | the merged operation: merged lines, no checksum, a timestamp after both |
| Resolver.LexLessIsStrictOrder | internal/sync/conflict/resolver.go:90-93 | the tie-break on peer names is a strict total order |
| Resolver.LexLessIsLexicographic | internal/sync/conflict/resolver.go:90-93 | the first difference decides, and a beginning comes before the whole |
| Resolver.MergedTextKeepsSecond | internal/sync/conflict/merge.go:26-36 | through splitting and joining, every line of the second text is in the merged text, in order |
| Resolver.MergeIsNewer | internal/sync/conflict/merge.go:37-41 | a merged operation wins against both inputs, unless a timestamp is at the 64-bit limit |
| Resolver.PickIsResolution | internal/sync/conflict/resolver.go:24-42 | without a content merge, resolving is choosing one of the two versions |
| Resolver.ConvergenceNeedsDominator | internal/sync/conflict/resolver.go:24-42 | any order of arrival with any repetition leaves one and the same version exactly when some version beats all others |
| Resolver.PeersConvergeToLatest | internal/sync/conflict/resolver.go:24-94 | if versions differ in (timestamp, peer) and smaller clocks have smaller timestamps, every order leaves the latest version |
| Resolver.CircularVersionsDiverge | internal/sync/conflict/resolver.go:24-94 | three versions whose timestamps contradict causality beat each other in a circle, and order decides |
| Convergence.RunsConverge | internal/sync/conflict/resolver.go:24-42 | concurrent edits taken from any protocol run converge if timestamps increase along happened-before |
| LineMerge.FindCommonPrefix | internal/sync/conflict/merge.go:305-321 | the loop finds the common prefix |
| LineMerge.FindCommonSuffix | internal/sync/conflict/merge.go:231-247 | the loop finds the common suffix |
| LineMerge.PrefixLenIsLongest | internal/sync/conflict/merge.go:305-321 | exactly the lengths up to the one found are common prefixes |
| LineMerge.SuffixLenIsLongest | internal/sync/conflict/merge.go:231-247 | exactly the lengths up to the one found are common suffixes |
| LineMerge.AreDisjoint | internal/sync/conflict/merge.go:173-187 | true exactly when no line is in both |
| LineMerge.IsModificationOf | internal/sync/conflict/merge.go:201-213 | true exactly when some line has the same non-empty label |
| LineMerge.LabelOfLine | internal/sync/conflict/merge.go:217-228 | the label is the trimmed text before the first colon if it contains a blank; the rest of the line and the padding do not matter |
| LineMerge.SecondSuffixIsEmpty | internal/sync/conflict/merge.go:91 | the search for a suffix inside two non-empty middles always finds nothing |
| LineMerge.MergeLinesDiff | internal/sync/conflict/merge.go:53-170 | the branchy merge is the five-case merge, for all texts |
| LineMerge.MergeKeepsTexts | internal/sync/conflict/merge.go:53-170 | the second text survives line by line in order, for all texts; so does the first unless the middles share a line |
| LineMerge.DisjointRestsAreJoined | internal/sync/conflict/merge.go:159-163 | texts that end differently and share no line after their common start: the whole first text, then the rest of the second |
| LineMerge.AppendedLinesAreJoined | internal/sync/conflict/merge.go:159-163 | two peers append different lines to one text: both additions come out, the first peer's first |
| LineMerge.SecondMiddleGoesFirst | internal/sync/conflict/merge.go:118-134 | middles that share a line: the second one, then exactly the lines of the first that it neither has nor relabels, in order and as often |
| LineMerge.EveryLineAccountedFor | internal/sync/conflict/merge.go:118-169 | exactly which lines come out: those of the texts that are not lost to a shared label, and the markers of an emitted block |
| LineMerge.RelabelledLineIsLost | internal/sync/conflict/merge.go:118-149 | an entry of the first text is lost when the second gives its label another value and the texts share a line |
| LineMerge.EditedEntryIsLost | internal/sync/conflict/merge.go:118-149 | the same on two texts of two lines |
| LineMerge.NothingIsInvented | internal/sync/conflict/merge.go:53-170 | no line comes out more often than both texts have it together, but for one of each marker |
| LineMerge.InsertionMerges | internal/sync/conflict/merge.go:54-88 | a pure insertion on either side merges to the longer text exactly when prefix and suffix fit into it |
| LineMerge.OverlapRepeatsLines | internal/sync/conflict/merge.go:53-86 | inputs on which overlapping prefix and suffix repeat lines |
| LineMerge.KeepOneSide | internal/sync/conflict/merge.go:152-158 | an emitted block holds both texts completely |
| LineMerge.KeepSideOfMerge | internal/sync/conflict/merge.go:152-158 | reading the markers back and keeping one side gives that text |
| ThreeWay.FindCommonPrefixCount | internal/sync/conflict/resolver.go:216-227 | counts the lines common to all three texts at the start |
| ThreeWay.FindCommonSuffixCount | internal/sync/conflict/resolver.go:230-241 | counts the lines common to all three texts at the end |
| ThreeWay.CommonEndsAreLongest | internal/sync/conflict/resolver.go:216-241 | exactly the counts up to those found are common to all three texts |
| ThreeWay.ThreeWayMergeWithBase | internal/sync/conflict/resolver.go:158-213 | a block when the texts and their middles pairwise differ, otherwise the branch that changed |
| ThreeWay.OnlyEditIsTheResult | internal/sync/conflict/resolver.go:163-172 | an edit made on one side alone, or alike on both, is the result |
| ThreeWay.ResultIsBaseExactly | internal/sync/conflict/resolver.go:158-213 | the base comes out exactly if nobody changed it or it is the block emitted; without a block one of the branches does |
| ThreeWay.BlockResolvedBothWaysComesBack | internal/sync/conflict/resolver.go:158-204 | a block that each peer resolves to its own side is the result again |
| ThreeWay.BlockEmittedExactly | internal/sync/conflict/resolver.go:163-184 | a block exactly when the texts are pairwise different and the common lines cover at most one of them |
| ThreeWay.OneBranchIsDropped | internal/sync/conflict/resolver.go:184-212 | three different texts without a block: exactly which branch is returned |
| ThreeWay.DoubledLineIsDropped | internal/sync/conflict/resolver.go:158-213 | one line, doubled by one peer and tripled by the other: no block, and the doubled branch is dropped either way round |
| ThreeWay.KeepSideGivesBranch | internal/sync/conflict/resolver.go:186-204 | keeping one side gives that branch's text exactly when the common lines fit into it |
| ThreeWay.BlockLosesShortBranch | internal/sync/conflict/resolver.go:158-204 | texts whose block is emitted and does not hold the shorter branch |
| ThreeWay.MergedTextHoldsBothBranches | internal/sync/conflict/resolver.go:158-204 | the same from the merged text alone, by splitting it, reading the markers and joining |
| Text.JoinOfSplit | internal/sync/conflict/resolver.go:159-161 | joining the lines of a text gives the text back |
| Text.SplitOfJoin | internal/sync/conflict/resolver.go:204 | splitting joined lines gives the lines back |
| Chunking.ChunkFile | internal/chunking/chunker.go:36-83 | the loop produces the chunks of a file |
| Chunking.ChunkFilePartitions | internal/chunking/chunker.go:36-141 | as many chunks as computed up front, contiguous, all full-size but the last, only the last marked so |
| Chunking.ChunkReader | internal/chunking/chunker.go:86-133 | under any schedule of short reads, the chunks are a contiguous partition of the bytes delivered, one for each call up to the end, and the one whose call reported the end is last; it fails exactly if a call fails that only sound calls come before |
| Chunking.ShortReadsDeliverAll | internal/chunking/chunker.go:91-125 | a reader without empty or failing reads delivers all of its bytes |
| Chunking.SortByChunkID | internal/chunking/assembler.go:31-33 | sorts in place, a permutation in ascending ID order |
| Chunking.AssembleChunks | internal/chunking/assembler.go:20-60 | wherever it does not panic: any permutation of a contiguous partition reassembles to the original bytes; otherwise the outcome of some ID order |
| Chunking.PartitionReassembles | internal/chunking/assembler.go:20-60 | sorting restores a partition and writing it out gives the original bytes |
| Chunking.RepeatedChunkFails | internal/chunking/assembler.go:46-50 | non-empty chunks of which one comes twice never assemble |
| Chunking.NegativeLengths | internal/chunking/assembler.go:36-51 | negative lengths that panic and negative lengths that do not |
| Chunking.VerifyChunkHash | internal/chunking/assembler.go:63-70 | accepts exactly data with the stated hash |
| Assembly.Cutter.AssemblesExactly | internal/chunking/assembler.go:20-60 | chunks of any versions of a file assemble exactly when, in order, they are the chunks of some bytes with the expected hash, and to those bytes |
| Assembly.Cutter.OneVersionCuts | internal/chunking/assembler.go:20-60 | as many chunks of one version as it has assemble exactly when none comes twice |
| ChunkManagement.ChunkManager.StartTransfer | internal/chunking/manager.go:62-81 | registers a transfer unless one exists |
| ChunkManagement.ChunkManager.ReceiveChunk | internal/chunking/manager.go:84-136 | changes exactly the transfer of the chunk's file, as one absorb step; an error exactly for a new chunk with a wrong hash |
| ChunkManagement.ChunkManager.CleanupTransfer | internal/chunking/manager.go:275-280 | forgets one transfer |
| ChunkManagement.ChunkManager.GetMissingChunks | internal/chunking/manager.go:188-213 | the ascending list of exactly the missing IDs, once the total is known |
| ChunkManagement.ChunkManager.AssembleFile | internal/chunking/manager.go:155-185 | from receipts that are a partition of some data under the right hash, that data; anything returned has the expected hash |
| TransferRuns.Sources.ReceiptsAreDeliveries | internal/chunking/manager.go:84-136 | invariant of every run: the receipts of a file are its intact deliveries since the last cleanup |
| TransferRuns.Sources.CompleteMeansAllArrived | internal/chunking/manager.go:84-152 | complete exactly when every chunk arrived intact at least once; missing are exactly the others |
| TransferRuns.Sources.TotalIsKnownFromStart | internal/chunking/manager.go:62-136 | invariant of every run: the total and hash of a transfer are those of its last chunk, before that those it was started with, and none otherwise |
| TransferRuns.Sources.CompleteHoldsTheFile | internal/chunking/manager.go:172-184 | a complete transfer holds a partition of the original bytes and their hash |
| TransferRuns.DeliverAndAssemble | internal/chunking/manager.go:84-185 | after any interleaved delivery run on a manager, asking for a file gives the original bytes exactly when all its chunks were delivered |
| ChunkBuffering.ChunkBuffer.AddChunk | internal/chunking/buffer.go:39-73 | keeps flags, chunks and completeness consistent; rejects foreign files and IDs out of range |
| ChunkBuffering.ChunkBuffer.GetMissingChunks | internal/chunking/buffer.go:76-87 | the ascending complement of the stored IDs |
| ChunkBuffering.ChunkBuffer.IsComplete | internal/chunking/buffer.go:90-94 | complete exactly when there is a chunk to wait for and none is missing |
| ChunkBuffering.ChunkBuffer.GetChunks | internal/chunking/buffer.go:97-115 | never fails on a complete buffer; all chunks in ID order |
| ChunkBuffering.CompleteByCounting | internal/chunking/buffer.go:63-65 | counting the stored chunks decides completeness |
| ChunkBuffering.FillAndAssemble | internal/chunking/buffer.go:39-115 | feeding a file's chunks in any order with repeats gives the file back exactly when none was left out |
| Handler.NetworkMessageHandler.HandleSyncOperation | internal/network/handler.go:251-308 | an announcement drops the chunks of earlier versions; data, deletions and renamings are handed over at once |
| Handler.NetworkMessageHandler.HandleChunk | internal/network/handler.go:311-396 | one chunk message is one step of the receiver's state machine |
| Handler.Receive | internal/network/handler.go:203-396 | a receiver given messages one by one goes through a run of its state machine, and returns its answers |
| Handler.OperationsGoOut | internal/network/handler.go:251-308 | in every run: what each operation changes and how it is answered, for deletions, renamings, and data that decompresses or does not |
| Handler.DeletionsAndRenamingsGoOut | internal/network/handler.go:294-305 | the engine is called for deletions and for renamings exactly as often as they arrive and in that order, and never for one because of chunks |
| Handler.ChunkAnswers | internal/network/handler.go:311-396 | a damaged chunk changes nothing; a chunk is accepted exactly if it is stored short of the total or something is handed over |
| Handler.HandedHasAnnouncedHash | internal/network/handler.go:344-390 | what a chunk hands over has the hash that this chunk announces |
| Handler.MetadataIsLastAnnounced | internal/network/handler.go:256-270 | invariant of every run: the metadata kept for a file is the operation announced last, and is kept exactly until the file is assembled |
| Handler.HandedFitsExactly | internal/network/handler.go:344-390 | the operation handed over has the checksum of the bytes exactly when the last announcement has the hash that the chunk announces, or when none stands |
| Handler.NeverAMix | internal/network/handler.go:251-396 | for any interleaving of versions and files, contents handed over for a file are the bytes of one version of that file |
| Reception.Channel.ReceiverFollowsIntake | internal/network/handler.go:256-396 | for copies of the messages about a file, of any versions, in any number and order among other files: what is handed over, what stays stored and every answer, computed from the copies alone |
| Reception.Channel.MixedPiecesAssembleExactly | internal/network/handler.go:334-354 | a chunk completes the chunks since the last announcement, of whatever versions, exactly when together they are the bytes of its own version |
| Reception.Channel.AnnouncementForgets | internal/network/handler.go:258-268 | an announcement makes everything before it irrelevant |
| SingleVersion.Version.HandedOverExactly | internal/network/handler.go:256-396 | for any copies of one version's messages among other files: one handover for each chunk that fills up a set of all chunks, right after the announcement or right after another set |
| SingleVersion.Version.HandedOverNeedsRound | internal/network/handler.go:334-369 | something is handed over exactly when an announcement is followed directly by every chunk once, and first the version under its operation |
| SingleVersion.Version.HandedOverAgainExactly | internal/network/handler.go:344-369 | something is handed over without a path exactly when every chunk follows once more, and what that is |
| SingleVersion.FirstChunksDecide | internal/network/handler.go:334-354 | with one announcement, exactly when the first chunks, as many as the version has, are all different |
| SingleVersion.Version.PartAfter | internal/network/handler.go:311-396 | a copy of a chunk is refused exactly when it makes the count up to the total and some chunk came twice |
| SingleVersion.Version.VersionHandedOverOnce | internal/network/handler.go:256-396 | all chunks of an announced version once each, in any order among other files: handed over exactly once, nothing left stored |
| SingleVersion.Version.RepeatedChunkLosesFile | internal/network/handler.go:334-342 | two chunks, the first one twice: nothing is handed over, and three chunks stay stored |
| SingleVersion.Version.RepeatedChunksAreHandedOverAgain | internal/network/handler.go:344-369 | all chunks twice after one announcement: handed over twice, the second time without a path |
| SingleVersion.Version.TwoChunksComeTwice | internal/network/handler.go:344-369 | the same for two chunks |
| SingleVersion.Version.StaleChunksGoOutAsNewer | internal/sync/engine.go:826-835 | chunks that arrive after a newer announcement: handed over under the newer operation, with a checksum they do not have |
| Reception.InlineDataIsHandedOver | internal/network/handler.go:251-290 | what is not sent in chunks is handed over as often as it arrives: deletions and renamings without data, data decompressed if need be, and nothing if that fails |
| Delivery.NetworkMessenger.TrackAcknowledgment | internal/network/messenger.go:397-404 | a fresh, empty channel for the message |
| Delivery.NetworkMessenger.HandleAcknowledgment | internal/network/messenger.go:502-552 | fills an empty channel of a tracked message, ignores anything else |
| Delivery.FirstAckCounts | internal/network/messenger.go:502-552 | later acks and acks of other messages change nothing; a failure without its type counts as success |
| Delivery.NetworkMessenger.SendMessage | internal/network/messenger.go:310-378 | at most so many transmissions as retries; success exactly if an attempt succeeds before the connection is gone; nothing is tracked when it fails before the first attempt |
| Delivery.RetriesUntilAccepted | internal/network/messenger.go:334-378 | success exactly if some attempt is accepted after only transport errors, failures and timeouts |
| Delivery.NetworkMessenger.SendChunkedFile | internal/network/messenger.go:149-195 | succeeds exactly if every message does; is a run of the protocol with the same success and the same ack table |
| Delivery.Sender.SendingIsARun | internal/network/messenger.go:310-378 | whatever the outcomes of the attempts, sending one message continues a run of the protocol |
| Delivery.Sender.InvAlways | internal/network/messenger.go:149-195 | protocol invariant: acks come from handlings, only messages reached are on the wire, handlings are in order |
| Delivery.Sender.TransmissionsAreBounded | internal/network/messenger.go:334-378 | in every run no message is transmitted more often than there are retries |
| Delivery.Sender.SuccessMeansHandled | internal/network/messenger.go:160-194 | success means every message was handled at least once; each is handled only after all before it |
| Delivery.Sender.SuccessMeansAccepted | internal/network/messenger.go:334-378 | of every message passed the receiver accepted a copy, unless a failure lost its payload type |
| Delivery.Sender.RefusalCountsAsSuccess | internal/network/messenger.go:502-552 | a refusal after which the sender goes on |
| Delivery.Sender.OnlyCurrentIsTracked | internal/network/messenger.go:310-378 | in every run only the message being sent is tracked, and nothing after success |
| Delivery.Sender.SuccessWithoutRepeats | internal/network/messenger.go:160-194 | without repeats by the network, the receiver handles precisely the sequence sent |
| EndToEnd.Transfer.SentFileIsHandedOver | internal/network/messenger.go:87-238 | for every run of the sender and every file, chunked or not: it is handed over exactly if it gets through, first with its contents and operation; later so again, or as the bare payload exactly if it gets through bare |
| EndToEnd.Transfer.SuccessfulSend | internal/network/messenger.go:87-238 | when the sender succeeds, a non-empty file in one piece has been handed over, and a file in chunks exactly once if nothing was repeated |
| EndToEnd.Transfer.EmptyFileIsNeverHandedOver | internal/network/handler.go:254-271 | no run hands over an empty file |
| EndToEnd.Transfer.ChunkedIsHandedOver | internal/network/messenger.go:149-195 | the whole list of handovers of a chunked file, computed from the IDs handled |
| EndToEnd.Transfer.OnlySecondCopyIsRefused | internal/network/handler.go:311-396 | the receiver's answers when the first of two chunks is handled three times |
| EndToEnd.SuccessWithoutHandover | internal/network/messenger.go:334-378 | a run with one lost ack, three attempts per message and success, in which the acks are the answers of any receiver, and after which none has handed the file over |
| EndToEnd.LostAckLosesFile | internal/network/messenger.go:334-378 | the same run on a new receiver, whose answers are the acks of the run |
| RateLimiting.RateLimiter.TryConsume | internal/network/flowcontrol/rate_limiter.go:60-84 | refills, then grants exactly if enough tokens are there |
| RateLimiting.RateLimiter.Refill | internal/network/flowcontrol/rate_limiter.go:96-108 | credits whole bytes up to the burst and moves the refill time only then |
| RateLimiting.RateLimiter.Wait | internal/network/flowcontrol/rate_limiter.go:40-57 | stops at the first attempt granted; from a state within bounds fails above the burst, and succeeds at the latest when twice the request and a byte has been earned |
| RateLimiting.StepKeepsBounds | internal/network/flowcontrol/rate_limiter.go:60-84 | a step leaves the bounds exactly when it grants a negative request that overfills the bucket |
| RateLimiting.TokensStayInBounds | internal/network/flowcontrol/rate_limiter.go:60-84 | in every reachable state 0 <= tokens; unless requests are negative tokens <= burst, and requests above the burst fail |
| RateLimiting.BytesArePaidFor | internal/network/flowcontrol/rate_limiter.go:60-111 | invariant: bytes admitted plus tokens gained never exceed what the time credited is worth |
| RateLimiting.AdmittedSinceCreation | internal/network/flowcontrol/rate_limiter.go:22-111 | since creation at most burst plus largest rate times elapsed time |
| RateLimiting.WindowBoundExactly | internal/network/flowcontrol/rate_limiter.go:60-130 | exactly from which states every window stays below burst plus rate times window plus one byte |
| RateLimiting.WindowsAfterCalls | internal/network/flowcontrol/rate_limiter.go:60-130 | the same after any run that ends in a call; always bounded while the rate is not raised |
| RateLimiting.RaisingTheRateBreaksTheBound | internal/network/flowcontrol/rate_limiter.go:60-130 | a full bucket, a rate raised after half a second, and more than the bound admitted |
| RateLimiting.RefillCreditsHalf | internal/network/flowcontrol/rate_limiter.go:65-75 | a refill that counts credits the room left or at least half of the elapsed time's worth |
| RateLimiting.PatiencePays | internal/network/flowcontrol/rate_limiter.go:40-84 | at a fixed rate a request that fits succeeds once the waiting is worth twice it plus one byte |
| RateLimiting.NewRateLimits | internal/network/flowcontrol/rate_limiter.go:126-130 | after any run and a change of rate, at most the tokens there and what the new rate earns are admitted until the next change |
| RateLimiting.NewRatePays | internal/network/flowcontrol/rate_limiter.go:126-130 | and a request that fits is granted once the new rate has earned twice as much and a byte |
| Reconciliation.AssignFilesWithCapacity | internal/state/reconciliation.go:59-94 | whatever the map order: the first files up to the total capacity, each to one peer, in request order; no peer above its limit, counting what it is busy with, and all at the limit if files are left |
| Reconciliation.AssignFilesToPeers | internal/state/reconciliation.go:36-56 | every file goes to one peer, by turns, in request order |
| Reconciliation.FilesComeInOrder | internal/state/reconciliation.go:50-53 | a peer gets as many files as it has turns, at each turn the file requested at that place |
| Reconciliation.SharesDifferByOne | internal/state/reconciliation.go:50-53 | no two peers' shares differ by more than one file |
| OperationLog.DB.AppendOperation | internal/database/operations.go:35-130 | a new row with the next sequence number, unless the operation ID is known |
| OperationLog.DB.GetUnacknowledgedOperations | internal/database/operations.go:153-170 | the unacknowledged rows in sequence order |
| OperationLog.DB.CompactLog | internal/database/operations.go:308-337 | deletes the oldest acknowledged rows, as many as the log is too long |
| OperationLog.DB.ReplayUnacknowledgedOperations | internal/sync/engine.go:928-983 | rebroadcasts exactly the peer's own unacknowledged operations in order; every entry is counted, failures exactly |
| OperationLog.RowsAreAppended | internal/database/operations.go:104-124 | whatever happens to the log, every row is an operation as it was appended |
| OperationLog.OutstandingAreReplayed | internal/sync/engine.go:928-983 | after any history replay broadcasts exactly the peer's operations taken into the table and not acknowledged since, as appended and in that order |
| OperationLog.NewIDsAreTaken | internal/database/operations.go:104-124 | unless a lost ID is reused, an operation is taken into the table exactly if its ID is new |
| OperationLog.LogAndReplay | internal/sync/engine.go:928-983 | the same for a log that lives through the history and is then replayed |
| OperationLog.CompactionKeepsUnacknowledged | internal/database/operations.go:319-331 | compaction leaves the unacknowledged rows as they are |
| OperationLog.CompactedLength | internal/database/operations.go:308-337 | a log that is too long ends with the larger of the limit and the unacknowledged count |
| OperationLog.SurvivorsAreNewer | internal/database/operations.go:320-328 | only acknowledged rows go, and every acknowledged survivor is newer than each of them |
| OperationLog.HistoryIsWellformed | internal/database/db.go:83-105 | every reachable table is in ascending sequence order, as compaction needs |
| OperationLog.CompactionIsInvisibleToReplay | internal/sync/engine.go:928-983 | at any time replay rebroadcasts the same with and without the compactions, exactly if no operation ID comes again after its row has been compacted away |
| OperationLog.FreshIDsAreNotReused | internal/sync/operation.go:59-61 | which holds if every operation has an ID of its own |
| OperationLog.ReusedIDIsRebroadcast | internal/database/operations.go:35-130 | a history in which reusing an ID changes what is rebroadcast |

## Left out

- Sockets, QUIC and TCP, discovery, SQLite, the file system, metrics, logging and configuration: wrappers over unseen libraries. The operations table is a sequence of rows with ascending sequence numbers (internal/database/db.go:83-105).
- Encryption and compression: assumed to give back what was put in. At the receiver decompression is a parameter that may fail.
- Causality.ClocksCaptureCausality: assumes that no engine restarts within the run, since a new engine starts from an empty clock, and that a run has fewer than 2^63 events, so that no counter wraps. Re-sends of an old clock under a new operation ID are not issued operations.
- The engine's file table: local edits are stored there without a clock, so convergence is stated for the resolver only.
- Chunking.ChunkFile: the chunk size is positive, as the configuration requires (internal/config/config.go:140-149); sizes do not overflow 64 bits.
- Chunking.AssembleChunks: what happens after a panic is not modelled. Sorting does not promise an order among equal IDs, so with repeated IDs the outcome is that of some order.
- ChunkManagement.ChunkManager.ReceiveChunk: time stamps, the timeout monitor and the retransmission counter are not modelled.
- ChunkBuffering.ChunkBuffer.AddChunk: the completion channel and waiting for it are not modelled.
- Handler.NeverAMix: assumes that no other bytes have the hash of a version in play.
- TransferRuns.Sources.CompleteMeansAllArrived: a chunk of a known file is either as it was cut or fails its own hash, the last chunk carries the hash of the whole file (which `ChunkFile` itself leaves empty), and a started total is the right one or none.
- Reception.Channel.ReceiverFollowsIntake: chunks of empty versions are not mixed with others, all versions are cut with one chunk size, and data that comes with its operation is stated separately (`Reception.InlineDataIsHandedOver`).
- Handler.NetworkMessageHandler.HandleChunk: one atomic step; two chunk messages of one file that interleave inside the method are not modelled, nor is a receiver without an engine.
- Delivery.Sender.SuccessMeansHandled: success says that the receiver handled each message; when it was accepted is stated separately (`Delivery.Sender.SuccessMeansAccepted`). One file is sent at a time.
- Delivery.NetworkMessenger.SendMessage: acknowledgments that arrive while another message is being sent appear in the protocol, not in this method; delays between attempts and waiting for bandwidth are not modelled.
- RateLimiting.RateLimiter.TryConsume: the floating-point product of rate and time is exact before it is cut down.
- OperationLog.CompactionIsInvisibleToReplay: that reuse does change replay is stated for operations logged as unacknowledged, as internal/sync/engine.go:802 logs them.
- The file manifest and pending-operation lists of a state declaration, reconciliation of two declarations, the operation queue, and merge helpers that nothing calls.
