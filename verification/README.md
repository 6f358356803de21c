# Chorus quorum WAL: a verified model

Chorus is a single-writer write-ahead log that keeps every segment on a handful of
zonal replicas and commits a record once a majority of them holds it. This project
models its four interlocking state machines in Dafny and proves what they promise
each other:

- **Quorum commit and recovery.** `Records` is the framing, `Quorum` the order
  statistics, `CommitTracking` and `LockedTracker` the watermark with `TrackerRuns` on
  exactly which runs fail, `Canonical` and `Recovery` the reconstruction of a segment
  from whichever majority answers.
  `Replica`, `Lane`, `LaneSession` and `Packing` are the storage semantics and the lane
  that feeds a replica, tied to the segment's run by `LaneRefinement`; `Enforcement` and
  `SealEnforcement` are the rewriting of copies. `SegmentRuns` puts one writer
  incarnation together as a state machine: acknowledged implies recovered.
  `RecoveryChains` extends that to any chain of recoveries that finalize and rewrite
  copies, superseded ones included.
- **The manifest register.** `Manifest` has the record, its validation and every
  compare-and-swap transform, `ManifestRuns` the histories they produce under stale
  caches and lost responses, `ManifestHandle` the retry loop, `ManifestCodec`, `Text`
  and `SegmentIds` the encodings, `Capacity` the directory's byte budget.
- **Rotation, recovery walk and follower.** `Frontier` and `Walk` are recovery's walk
  over the register and `FrontierRegister` what its requests leave there, `SealGate` the gate that keeps at most one seal unenforced and
  `SealedCopies` what that means for the copies, `DeferredFold` the regime in which a
  boundary can move, `Deletion` truncation and the dead-segment sweep, `Follower` the
  read-only vote. `LateEnforcers` and `LateReaders` are whole runs in which somebody
  superseded comes late.
- **The engine pipeline.** `Engine` has admission, numbering, the dispatch window,
  ordered completion and the active-segment ceiling; `Receipts` follows a positive
  receipt to its replay.

State that the program mutates is a class whose methods are proved against functions
on values; the results over whole runs are lemmas about those functions.

Premises, stated where they are used:

- Replica counts are arbitrary (n >= 1), any minority may be silent, and bytes a
  replica acknowledged are not lost while its object lives.
- SHA-256 and CRC32C are uninterpreted. `SealedCopies` takes a directory entry's
  checksum to stand for one byte string of its segment; nothing else uses collision
  freedom.
- A recovery counts a zone's answer only after it fenced that zone. A zone whose object is
  missing has no lane.
- Lanes append, and enforcers of any decision write, bytes of the segment's one stream;
  copies are not deleted while they are being enforced. An enforcement counts as done in
  `SealedCopies` once a majority of zones was sealed at some moment, which is what
  `enforce_seal` is proved to ensure; for the live seal of a swapped segment
  (`Writer::seal`) it is a premise.
- A lane is activated only before the first admission, because activation assigns the
  durable offset instead of taking a maximum.
- The pending-segment results of `Frontier` and `Receipts` cover one writer incarnation
  followed by one recovery. A recovery that defers its fold is the separate regime of
  `DeferredFold`.
- The two-entry directory reservation covers live swaps.
- Writers mint ids from the epoch of the claim they commit under and a local counter.

Where the code does less than its comments suggest, the model follows the code:

- A recovery that defers its fold and then acknowledges records in the adopted segment
  can be followed by one that moves the boundary, so that those records shift
  (`DeferredFold.DeferredFoldBoundaryCanMove`), or that takes a partial record beyond
  the boundary for a proven gap and retires the segment with them
  (`DeferredFold.DeferredFoldCanRetirePending`). The exact condition under which they
  keep their numbers is in `DeferredFold.PendingKeepsItsNumbers`.
- A guarded replace can reopen a copy another enforcer has sealed, from a retry
  (`Enforcement.RetriedReplaceReopensSeal`) or from a stat that never saw the content;
  exactly when is in `Enforcement.ReopensExactlyWhenGuardSawSeal`. So a successful
  `enforce_seal` may return with fewer sealed copies than it counted
  (`SealEnforcement.CountedCanBeReopened`), and beside an enforcer of another decision
  with fewer copies that hold the bytes at all (`SealEnforcement.CountedCanLoseBytes`).
- An enforcement passes over a zone whose writes fail transiently, but not when the copy
  is open and already holds the bytes: the read after the failed takeover then ends the
  whole call (`SealEnforcement.Enforcer.EnforceWitness`).
- A superseded recovery, which nothing makes check its claim while it enforces, can break
  the seal gate after the register moved on (`LateEnforcers.LateRetryRun`) and take a
  folded entry's bytes off every zone (`LateEnforcers.LateDecisionRun`). No committed
  record is lost by it (`RecoveryChains.HoldersOfCommittedNeverShrink`), but a record a
  follower emitted before its commit can be (`LateReaders.LateRewriteTakesEmittedRecord`).

## Model

| member | source | states |
|---|---|---|
| Records.DecodedLen | rust/client/src/record.rs:125-137 | an accepted length is at least the header, at most the input, and within u32 |
| Records.FrameDecodes | rust/client/src/record.rs:28-34 | a frame followed by anything decodes to exactly its payload and leaves exactly the rest |
| Records.FrameCutFails | rust/client/src/record.rs:125-137 | no strict prefix of a frame decodes, whatever would follow: framing is self-delimiting |
| Records.DecodeAll | rust/client/src/record.rs:51-59 | succeeds exactly when the input is the encoding of some record list, returns that list, else the first framing error |
| Records.ValidateAll | rust/client/src/record.rs:63-71 | accepts and rejects exactly what decoding does and returns the record count |
| Records.DecodeCompletePrefix | rust/client/src/record.rs:78-90 | returns the longest well-formed prefix and exactly the bytes it re-encodes to |
| Records.CompletePrefixEnds | rust/client/src/record.rs:95-103 | returns the end offsets of the same prefix that decoding returns |
| Records.DecodeInvertsEncode | rust/client/src/record.rs:28-59 | a segment decodes to a record list if and only if it is that list's encoding |
| Records.PrefixEndsOfCutStream | rust/client/src/record.rs:78-103 | any byte prefix of a stream parses to exactly the records whose ends lie within it |
| Quorum.KthLargest | rust/client/src/protocol.rs:822-826 | the element picked after sorting is at least x exactly when k elements are |
| Quorum.SortSpec | rust/client/src/protocol.rs:822-826 | the sorted slice is ascending and a permutation |
| Quorum.WatermarkIsQuorumHeld | rust/client/src/protocol.rs:822-826 | an offset is at or below the watermark exactly when a quorum of lanes is durable through it |
| Quorum.Overlap | rust/client/src/protocol.rs:31-33 | any two majorities of any replica count share a replica |
| Quorum.RecoverySizeIsTight | rust/client/src/protocol.rs:35-44 | the recovery size is exactly the largest offset the unreached replicas leave possible |
| Quorum.RecoverySizeCoversQuorum | rust/client/src/protocol.rs:35-44 | every offset held by a majority of all replicas is within the size computed from any reached majority |
| CommitTracking.RecomputeInv | rust/client/src/protocol.rs:750-788 | recomputation re-establishes the full invariant: covered exactly up to the watermark, unresolved boundaries kept in order, the oldest still reachable or failed |
| CommitTracking.RecomputeFails | rust/client/src/protocol.rs:770-783 | recomputing fails the tracker if and only if the oldest boundary without a durable quorum has fewer than a quorum of lanes that hold it or are alive and were handed it, and then blames what those lanes ended with |
| CommitTracking.AdmitInv | rust/client/src/protocol.rs:648-676 | admitting a window keeps the invariant over the longer stream |
| CommitTracking.PublishInv | rust/client/src/protocol.rs:678-692 | a durability report keeps the invariant, stale reports included |
| CommitTracking.FinishInv | rust/client/src/protocol.rs:694-722 | a lane's end, with or without an error, keeps the invariant |
| CommitTracking.RunInv | rust/client/src/protocol.rs:602-788 | every legal sequence of activations, admissions, reports, lane ends and poisonings keeps the invariant; committed plus unresolved is admitted |
| CommitTracking.CommittedIsCoveredCount | rust/client/src/protocol.rs:750-788 | without failure the watermark equals the number of admitted boundaries a quorum of lanes covers |
| CommitTracking.OrderIndependence | rust/client/src/protocol.rs:750-788 | two failure-free runs that end with the same stream and lane offsets have the same watermark |
| CommitTracking.WatermarkIsStable | rust/client/src/protocol.rs:750-788 | along any run the watermark never drops, and after the first failure watermark and failure are frozen |
| CommitTracking.OldestCanStillCommit | rust/client/src/protocol.rs:750-788 | while not failed, quorum-many lanes hold or can still reach the oldest unresolved boundary |
| CommitTracking.FailureBlame | rust/client/src/protocol.rs:828-844 | the lowest fenced zone is blamed if any lane that was handed the boundary was fenced, else the lowest one with a lasting error, and nothing exactly when there is neither |
| TrackerRuns.LaneIsItsCalls | rust/client/src/protocol.rs:602-722 | after any legal calls a lane is on record for a positive offset exactly when it was reported that far since its last activation, for a window exactly when one was handed to it, as alive exactly when activated and not ended since, and with the last error it ended with |
| TrackerRuns.CommittedIsDurableCount | rust/client/src/protocol.rs:750-768 | until a failure the watermark is the number of admitted records that a quorum of lanes was reported to hold, counted on the calls alone |
| TrackerRuns.ApplyFails | rust/client/src/protocol.rs:694-783 | a running tracker fails at a call if and only if the call poisons it, ends a lane with a fence, or leaves the oldest open record out of reach, and each with its own failure |
| TrackerRuns.RunFailsExactly | rust/client/src/protocol.rs:602-788 | a run has failed if and only if one of its calls poisoned it, fenced a lane, or left the oldest record no quorum holds out of reach of a quorum; every other run keeps going |
| LockedTracker.CommitTracker.constructor | rust/client/src/protocol.rs:351-378 | a new tracker's state is the initial value of the specification |
| LockedTracker.CommitTracker.ActivateLane | rust/client/src/protocol.rs:602-613 | the tracker's state after activation is the specification's |
| LockedTracker.CommitTracker.Admit | rust/client/src/protocol.rs:648-676 | the tracker's state after a window is the specification's, and the returned range is the window's |
| LockedTracker.CommitTracker.Publish | rust/client/src/protocol.rs:678-692 | the tracker's state after a report is the specification's |
| LockedTracker.CommitTracker.Finish | rust/client/src/protocol.rs:694-722 | the tracker's state after a lane's end is the specification's |
| LockedTracker.CommitTracker.PoisonWriter | rust/client/src/protocol.rs:724-734 | the tracker's state after poisoning is the specification's, which keeps an earlier failure |
| LockedTracker.CommitTracker.RecomputeLocked | rust/client/src/protocol.rs:750-788 | the in-place loop over the boundary queue computes the specification's recomputation |
| LockedTracker.SelectCommitFailure | rust/client/src/protocol.rs:828-844 | the scan over the lanes returns the specified failure |
| Canonical.SubsetsExactlyOnce | rust/client/src/protocol.rs:2892-2919 | every index set of the requested size appears in the enumeration exactly once |
| Canonical.QuorumSubsets | rust/client/src/protocol.rs:2892-2919 | the recursive extension enumerates the subsets in lexicographic order, none twice |
| Canonical.FindConflict | rust/client/src/protocol.rs:2921-3000 | finds the first differing record of two prefixes, or none exactly when one extends the other |
| Canonical.SelectCanonicalQuorum | rust/client/src/protocol.rs:2921-3000 | selects a longest prefix over all pairwise consistent quorum subsets, the first longest member of the candidate with the lowest zones; fails exactly when none is consistent or two longest differ |
| Canonical.SelectionIsUnique | rust/client/src/protocol.rs:2921-3000 | the recovered records, and with distinct zones the chosen copy, do not depend on the order in which candidates are found |
| Canonical.HonestSelection | rust/client/src/protocol.rs:2921-3000 | when every witness holds a prefix of one stream, selection never conflicts and what it selects extends every witness's records |
| Recovery.RecoverCandidate | rust/client/src/protocol.rs:987-1248 | from the bare answers: the first breaking error, no quorum, absence, or an empty segment exactly when a majority of zones is proven empty, reusable exactly when every zone is writable, created ones counted only when live ones are no majority; the named witnesses are exactly the zones read finalized with the canonical bytes; with true readings, copies rewritten between a zone's two readings included, the prefix is the longest usable one and the discarded-suffix flag and each error are exact |
| Recovery.CommittedSizeMeans | rust/client/src/protocol.rs:1060-1079 | an offset is within the committed size if and only if the zones that answered with it and those that did not answer make a majority |
| Recovery.HeldByIsRecovered | rust/client/src/protocol.rs:1029-1248 | a record that a majority of all replicas holds, in the answers and the readings of those that answered, is in the result of any recovery that succeeds |
| Recovery.AcknowledgedIsRecovered | rust/client/src/protocol.rs:1029-1248 | a record held by a majority of all replicas is in the result of any recovery that succeeds, whoever answered |
| Recovery.RecoveredExactlyIfHeld | rust/client/src/protocol.rs:1029-1248 | when every zone answers, recovery keeps a record if and only if a majority holds it |
| Recovery.AlwaysRecoveredExactlyIfHeld | rust/client/src/protocol.rs:1029-1248 | every recovery that succeeds, whoever answers, returns a record if and only if a majority holds it or, which odd counts exclude, the copies are tied with exactly half of them empty |
| Recovery.TiedIsRecovered | rust/client/src/protocol.rs:1069-1117 | in a tie of an even count, a recovery that succeeds returns the record although no majority need hold it |
| Recovery.FullyCommittedIsRecoveredExactly | rust/client/src/protocol.rs:1197-1202 | if a majority holds the whole stream, recovery returns all of it and sees no discarded suffix |
| Recovery.DecidedPrefixIsRecovered | rust/client/src/protocol.rs:1203-1225 | asked for a decided record count, recovery returns exactly those records' bytes |
| Recovery.ExactLater | rust/client/src/protocol.rs:1029-1225 | an outcome stays exact when silent zones and the admitted stream grow afterwards |
| SegmentRuns.RunKeepsInv | rust/client/src/protocol.rs:1564-1660 | every interleaving of opens, windows, replica growth, reports, lane ends and fences keeps tracker, lanes and disks consistent |
| SegmentRuns.CommittedIsQuorumHeld | rust/client/src/protocol.rs:750-788 | a committed record is on a majority of disks |
| SegmentRuns.AcknowledgedImpliesRecovered | rust/client/src/protocol.rs:750-788 | in every run, every record committed before or after a recovery took its answers from fenced zones is in the prefix it returns |
| SegmentRuns.SwappedSegmentIsRecoveredExactly | rust/client/src/segment.rs:2336-2387 | once every admitted record is committed, any recovery returns exactly the admitted records and no discarded suffix |
| SegmentRuns.FencedIsFrozen | rust/client/src/protocol.rs:987-1100 | a fenced replica's bytes never change again, so answers taken at different moments describe one state |
| SegmentRuns.FencedAnswersStayTrue | rust/client/src/protocol.rs:987-1100 | answers taken from fenced zones stay true of every later state of the run |
| RecoveryChains.EveryRecoveryContainsEveryCommit | rust/client/src/protocol.rs:987-1437 | over every chain of recoveries, crashed and superseded ones included, each taking sizes and reading copies at its own moments, asked for everything or for a decided count, and rewriting copies with its decision, every successful one returns every record ever committed, earlier or later |
| RecoveryChains.HoldersOfCommittedNeverShrink | rust/client/src/protocol.rs:1269-1437 | along every such chain no replica that holds a committed record ever stops holding it |
| Replica.GenerationOnlyGrows | rust/client/src/local.rs:251-484 | over any requests of any handles a generation's bytes only extend, and a finalized one is frozen |
| Replica.GoneGenerationStaysGone | rust/client/src/local.rs:321-409 | a generation that was replaced or deleted never comes back |
| Replica.OlderSessionIsFencedForever | rust/client/src/local.rs:251-284 | once a newer session exists, an older one's appends and resumes are refused for good |
| Replica.TakeoverFences | rust/client/src/local.rs:361-374 | a takeover fences every session opened before it |
| Replica.LocalReplica.Open | rust/client/src/local.rs:321-409 | create, resume, takeover and replace change the object exactly as specified and return the session that may extend it |
| Replica.LocalReplica.LaneSend | rust/client/src/local.rs:251-284 | an append succeeds only for the live session at the exact end, and then every byte is on the object |
| Replica.LocalReplica.FinalizeAt | rust/client/src/local.rs:460-484 | finalizing succeeds exactly at the object's size and leaves it finalized |
| Replica.LocalReplica.Remove | rust/client/src/local.rs:447-458 | a delete succeeds exactly for the current generation |
| Packing.PackAppend | rust/client/src/grpc.rs:165-198 | non-empty messages within the target, at contiguous offsets, whose contents concatenate to the chunks |
| Packing.MessageIsSlice | rust/client/src/grpc.rs:165-198 | each message's content is the payload at the message's offset |
| Packing.OneShotWriteRequests | rust/client/src/grpc.rs:207-251 | carries exactly the data, names the object first only, flushes and looks up last only; empty data is one empty request |
| Lane.AckThrough | rust/client/src/protocol.rs:2539-2552 | releases exactly the durable batches; what is left reaches the same end with the cursor at the first chunk past the durable tail |
| Lane.PartitionPoint | rust/client/src/protocol.rs:2539-2552 | binary search finds exactly how many boundaries are durable |
| Lane.ResendSuffix | rust/client/src/protocol.rs:2673-2762 | the rebuilt suffix is exactly the admitted bytes from the durable tail to the sent end, a partly durable chunk sliced |
| Lane.SendKeepsMirror | rust/client/src/local.rs:251-284 | an accepted append, whole or cut short, leaves the object a prefix of the admitted stream |
| Lane.OthersKeepMirror | rust/client/src/local.rs:361-409 | nothing other handles do short of appending breaks that |
| LaneSession.LaneRuntime.PublishProgress | rust/client/src/protocol.rs:2611-2626 | the durable tail becomes the maximum and nothing retained is released early or kept too long |
| LaneSession.LaneRuntime.ConfirmTimeout | rust/client/src/protocol.rs:2260-2280 | a passed deadline is survived exactly on durable progress without a lasting error, and with nothing left to recover only if everything sent is durable |
| LaneSession.LaneRuntime.Recover | rust/client/src/protocol.rs:2673-2779 | success leaves every sent byte durable or on the object; in every outcome the object is a prefix of the stream and holds what was reported; undisturbed, it succeeds if and only if the session is still the object's own and the object is open |
| LaneSession.LaneRuntime.Hold | rust/client/src/protocol.rs:2281-2286 | an admitted window extends the lane's stream by exactly its chunks |
| LaneSession.LaneRuntime.Stage | rust/client/src/protocol.rs:2342-2372 | a group is sent at the old sent end; success means the object holds every sent byte, recovered if the session rejected it, and a group the replica accepts succeeds |
| LaneSession.LaneRuntime.Dispatch | rust/client/src/protocol.rs:2291-2338 | keeps all of that, at most two flushes outstanding; a free flush slot empties the held batches and otherwise less than a mebibyte stays held |
| LaneRefinement.LaneStepIsSegmentStep | rust/client/src/protocol.rs:2291-2372 | whatever a lane does to its object is a growth step of the segment's run, and what it then reports is an enabled report |
| LaneRefinement.LaneLifeIsSegmentRun | rust/client/src/local.rs:251-409 | the whole life of a replica object beside its lane, admissions included and whoever sends the requests, is a sequence of growth, fence and admission steps of the segment's run; it stays a prefix of what the lane was handed and is fenced exactly when storage was taken over |
| LaneRefinement.TakenOverIsFrozen | rust/client/src/local.rs:361-374 | after a takeover the object keeps exactly its bytes, however often the old lane retries |
| Enforcement.HoldersNeverShrink | rust/client/src/protocol.rs:1250-1372 | at every step of any interleaving of enforcers, superseded ones with other decisions included, the replicas holding a prefix that every decision contains never become fewer; that every decision contains every committed record is proved in RecoveryChains |
| Enforcement.OtherDecisionKeepsSharedPrefix | rust/client/src/protocol.rs:1409-1425 | an enforcer of another decision keeps a prefix on a copy it replaces exactly when its decision contains the prefix |
| Enforcement.ReopensExactlyWhenGuardSawSeal | rust/client/src/protocol.rs:1922-1955 | short of deletion a request reopens a sealed copy exactly when it is a replace whose guard names that sealed copy, whatever its bytes and whether its snapshot saw the content or only stat |
| Enforcement.GuardOfSealSawSeal | rust/client/src/protocol.rs:1922-1955 | a guard that names a sealed copy was taken when the copy was already sealed |
| Enforcement.RetriedReplaceReopensSeal | rust/client/src/protocol.rs:1922-1955 | a concrete case: after a transient failure the re-read copy is sealed, is skipped because it is finalized, and is replaced |
| Enforcement.SealedIsForever | rust/client/src/protocol.rs:1377-1437 | over any run without deletions a sealed copy stays untouched if and only if no replace was guarded by it |
| Enforcement.SealedAgainExactly | rust/client/src/protocol.rs:1377-1437 | whatever lanes and enforcers of any decisions did, a copy that was sealed is sealed later if and only if every replace served in between was followed by a finish at the canonical length |
| Enforcement.HeldExactly | rust/client/src/protocol.rs:1409-1425 | a replica that held a prefix still holds it if and only if the last replace it served since carries bytes that contain it |
| SealEnforcement.Enforcer.FinalizeWithRetry | rust/client/src/protocol.rs:2799-2843 | among lanes and enforcers of any decisions, success means the replica holds the finalized canonical bytes, also when only a stat confirmed an ambiguous finish |
| SealEnforcement.Enforcer.ReplaceWithRetry | rust/client/src/protocol.rs:1922-1955 | among lanes and enforcers of any decisions, success means the replica holds the canonical bytes at that moment, also after a lost response |
| SealEnforcement.Enforcer.EnforceWitness | rust/client/src/protocol.rs:1377-1437 | among lanes and enforcers of any decisions, `true` means this replica was sealed at a moment of the call; an undisturbed call succeeds from any state, unreadable content included, and leaves the copy sealed; a lasting error ends it; with only transient failures it passes the zone over, except exactly when the copy is open and already holds the bytes |
| SealEnforcement.Enforcer.ReadZone | rust/client/src/protocol.rs:1278-1301 | a copy confirmed by stat alone was the sealed copy when it was confirmed; a zone is skipped only for a transient read failure and ends the call only for a lasting one |
| SealEnforcement.Enforcer.EnforceSeal | rust/client/src/protocol.rs:1269-1372 | among lanes and enforcers of any decisions, success means a majority of replicas each held a finalized copy of exactly the canonical bytes at a moment of the call; they are still sealed if nothing sealed was reopened, and still hold the bytes if every replace carried them; every outcome keeps every held prefix that all replaces carried; an undisturbed rerun with a majority answering succeeds and leaves a majority sealed, whatever the other zones' reads or writes fail with transiently |
| SealEnforcement.CountedStillSealed | rust/client/src/protocol.rs:1269-1437 | whoever else was at work, a zone counted at some moment is sealed at return if and only if every replace it served since was finalized again |
| SealEnforcement.StillHeldExactly | rust/client/src/protocol.rs:1269-1437 | a zone still holds a prefix it held, the canonical bytes of a counted zone among them, if and only if the last replace it served since carries it |
| SealEnforcement.CountedCanBeReopened | rust/client/src/protocol.rs:1922-1955 | a concrete run of two enforcers in which one returns success with a single sealed copy |
| SealEnforcement.CountedCanLoseBytes | rust/client/src/protocol.rs:1377-1437 | a concrete run with an enforcer of a shorter decision in which a successful call leaves the bytes on one zone of three |
| SealEnforcement.UnreopenedMajority | rust/client/src/protocol.rs:1269-1372 | if no sealed copy was replaced during the call, every zone counted is sealed at return |
| DeferredFold.BoundaryAfterDeferredFold | rust/client/src/segment.rs:1500-1509 | a second recovery keeps every record of the first; it repeats the first decision, same boundary and no discarded suffix, if and only if no zone it hears outside the enforced ones holds a byte beyond it |
| DeferredFold.BoundaryMoves | rust/client/src/segment.rs:1500-1509 | it keeps more records exactly when some copy it reads outside the enforced zones supplies more |
| DeferredFold.PendingKeepsItsNumbers | rust/client/src/segment.rs:1500-1584 | records acknowledged in the adopted segment are replayed at their own numbers if and only if the second recovery repeats the first decision; the segment is retired exactly when a discarded suffix is seen |
| DeferredFold.DeferredFoldBoundaryCanMove | rust/client/src/segment.rs:1647-1661 | a concrete three-zone case in which the second recovery keeps one record more |
| DeferredFold.DeferredFoldCanRetirePending | rust/client/src/segment.rs:1543-1584 | a concrete three-zone case in which the boundary stays but two bytes of a partial record retire the adopted segment |
| SegmentIds.SegmentIdInjective | rust/client/src/manifest.rs:461-464 | distinct epoch and counter pairs never share an id |
| SegmentIds.IdEpochOfSegmentId | rust/client/src/segment.rs:2598-2604 | the epoch read back from an id is the one it was minted with |
| SegmentIds.SegmentIdShape | rust/client/src/manifest.rs:461-464 | ids have at most 33 characters and contain no directory separator |
| Manifest.HoldsIsDerivedRange | rust/client/src/segment.rs:1245-1279 | the range the code derives by position is the set of indices no later entry starts in |
| Manifest.HoldsUnique | rust/client/src/manifest.rs:305-378 | in a valid directory an index has at most one entry and range |
| Manifest.EveryIndexHeld | rust/client/src/manifest.rs:305-378 | every index from the floor to the tail has one |
| Manifest.FoldKeepsHistory | rust/client/src/manifest.rs:985-1048 | a fold keeps every entry's range and covers exactly the indices it adds |
| Manifest.RemoveKeepsHistory | rust/client/src/manifest.rs:1118-1139 | a removal keeps the entry and range of every index at or above the floor |
| Manifest.CommitKeepsHistory | rust/client/src/manifest.rs:752-776 | every committed transform keeps retained history and never lowers floor, tail or epoch |
| Manifest.CommitKeepsAnchor | rust/client/src/manifest.rs:380-413 | the floor stays covered by an entry through every committed transform |
| Manifest.RetryFindsItsCommit | rust/client/src/manifest.rs:752-1139 | on the version a register, replace, fold, raise or removal committed, the same request reports done; a repeated claim takes the next epoch |
| Manifest.CommitsExactly | rust/client/src/manifest.rs:784-1139 | what a committed request found and left, field by field: whose claim, which tail and pending ids it expected, which it installed as tail and which as pending, everything else unchanged; and it commits whenever it can have that effect |
| Manifest.RemovalKeepsValid | rust/client/src/manifest.rs:380-413 | what an allowed removal leaves always passes validation |
| Manifest.RemovalKeepsTombstones | rust/client/src/manifest.rs:380-413 | a removal turns no tombstone live and no live entry into a tombstone, although derived ends move |
| ManifestRuns.HistoryImmutable | rust/client/src/manifest.rs:985-1139 | over every history an index's entry, checksum and range never change while it stays above the floor |
| ManifestRuns.ExactlyOneEntry | rust/client/src/manifest.rs:305-413 | in every version each index between floor and tail has exactly one entry |
| ManifestRuns.EpochStep | rust/client/src/manifest.rs:781-807 | a claim takes exactly the next epoch for its owner, and nothing else changes epoch or owner |
| ManifestRuns.OneOwnerPerEpoch | rust/client/src/manifest.rs:781-807 | over every history an epoch has exactly one owner |
| ManifestRuns.FencedAfterNewerClaim | rust/client/src/manifest.rs:1059-1066 | no fold, register, replace or raise commits under a claim once a newer one has |
| ManifestRuns.FoldsTakeEffectOnce | rust/client/src/manifest.rs:985-1048 | committed folds have strictly increasing, disjoint ranges, so none takes effect twice |
| ManifestRuns.RetriedFoldTookEffect | rust/client/src/manifest.rs:985-1048 | a retried fold that reports done was committed earlier with the same decision and checksum |
| ManifestRuns.RunsKeepHistory | rust/client/src/manifest.rs:634-807 | every run of any number of handles with stale caches and lost responses yields such a history |
| ManifestRuns.GrantsAreExclusive | rust/client/src/manifest.rs:781-807 | no epoch is ever granted to two owners, whatever caches were stale |
| ManifestHandle.Handle.Refresh | rust/client/src/manifest.rs:634-664 | the cache becomes the current version |
| ManifestHandle.Handle.InstallUpdate | rust/client/src/manifest.rs:720-724 | the cache only moves forward |
| ManifestHandle.Handle.CasTransform | rust/client/src/manifest.rs:752-776 | a reported commit is the newest version, new since the call and made by this request; done and refused are the transform's answers on a version the register had; it gives up only if every round after the first met a conflict or a lost response |
| ManifestHandle.Handle.ClaimEpoch | rust/client/src/manifest.rs:781-807 | on success the register showed this owner at the granted epoch |
| ManifestHandle.Handle.RaiseTruncation | rust/client/src/manifest.rs:1081-1103 | on success a version at or after the call, still under this claim, has at least the requested floor |
| Capacity.EntryWithinWorstCase | rust/client/src/manifest.rs:445-464 | every encoded entry of a minted id, with separator, fits the 64-byte worst case |
| Capacity.RoomLasts | rust/client/src/manifest.rs:445-458 | room for k leaves room for k minus c after any c folds, with claims, raises and removals between |
| Capacity.SwapReservationSuffices | rust/client/src/segment.rs:2156-2183 | with room for two at a live swap neither recovery fold is refused for a full directory |
| ManifestCodec.SegmentsRoundTrip | rust/client/src/manifest.rs:168-218 | the directory decodes back to itself when its ids carry no separator |
| ManifestCodec.ManifestRoundTrip | rust/client/src/manifest.rs:229-303 | decoding undoes encoding exactly for the valid records whose directory ids are non-empty and carry no separator |
| Text.DecimalRoundTrip | rust/client/src/manifest.rs:229-303 | decimal formatting parses back to the number within its width |
| Text.HexRoundTrip | rust/client/src/manifest.rs:168-218 | padded hexadecimal parses back to the number within its width |
| Frontier.WalkFrontier | rust/client/src/segment.rs:1335-1735 | the step-by-step walk computes the recovery plan, which from what was recovered of the two segments: keeps the tail, adopts the pending segment or starts a fresh pair, defers the fold exactly with a reusable or new pending segment, folds every other predecessor exactly once, never past an unenforced seal, replays the tail and then the pending segment, discards the latter exactly above a proven gap, and fails exactly for the two impossible frontiers |
| Frontier.WalkKeepsSealGate | rust/client/src/segment.rs:1485-1640 | no recovery fold replaces the seal record of a folded but unenforced segment, and all folded segments end enforced |
| FrontierRegister.WalkSettlesRegister | rust/client/src/segment.rs:1335-1735 | carried out on the adopted register, no request of the walk is fenced or refused, and with the deferred fold it leaves the active segment as tail, the spare as pending, the base after everything recovered, and exactly the recovered segments added to the directory with the last one as seal record |
| Frontier.RotationLosesNothing | rust/client/src/segment.rs:1500-1640 | for one incarnation's tail and pending runs, a walk that succeeds replays every committed record of both at its own number and never discards the pending segment |
| Frontier.FrontierErrorsUnreachable | rust/client/src/segment.rs:1455-1640 | a non-empty pending segment after an empty tail cannot arise, nor an absent one once it acknowledged anything |
| Walk.DeriveChain | rust/client/src/segment.rs:1207-1279 | returns exactly the entries at or above the floor; on reachable registers it fails only for a checkpoint below the floor |
| Walk.ReachableWalks | rust/client/src/segment.rs:1245-1279 | in every version of every history the derived links run without gap from the floor to the tail |
| Walk.ReplayRecords | rust/client/src/segment.rs:3738-3756 | emits exactly the segment's records inside the requested range, in order |
| Walk.ScanSealedRange | rust/client/src/segment.rs:1763-1791 | succeeds exactly when every overlapping segment is readable with its link's record count; over contiguous links every number of the range is then emitted once, in order |
| Walk.EmitsLog | rust/client/src/segment.rs:1763-1791 | if the segments hold one log, what is emitted is that log's range |
| Walk.ReplayFrom | rust/client/src/segment.rs:1128-1157 | for every version of every history and every checkpoint at or above its floor, directory and recovered frontier replay every number from the checkpoint to the new writer's base once and in order |
| SealGate.SettleSettles | rust/client/src/segment.rs:1286-1333 | recovery's enforcement of the adopted seal settles every entry, although the register moved on meanwhile |
| SealGate.FoldSettles | rust/client/src/engine.rs:1449-1480 | a fold from a settled directory leaves only the new seal unsettled |
| SealGate.SealSettles | rust/client/src/maintenance.rs:405-573 | enforcing the folded segment, or the floor passing it, settles everything again |
| SealGate.FoldKeeps | rust/client/src/engine.rs:1449-1512 | an engine fold keeps the gate even when its response is lost and it is retried |
| SealGate.NextKeeps | rust/client/src/engine.rs:1781-1901 | every step of engines, maintenance and recoveries keeps the gate |
| SealGate.AtMostOneUnenforcedSeal | rust/client/src/engine.rs:1781-1812 | in every reachable state the only entry neither enforced nor below the floor is the one the seal record names |
| SealedCopies.EveryOtherEntryWasSealed | rust/client/src/engine.rs:1781-1812 | whatever superseded enforcers did, every entry but the seal record's is below the floor or had its exact bytes finalized on a majority of zones, each at some moment |
| SealedCopies.OnceMeansWasSealed | rust/client/src/protocol.rs:1269-1372 | the zones recorded as sealed once are exactly those whose copy was finalized with those bytes in some earlier state |
| SealedCopies.CallIsHistory | rust/client/src/protocol.rs:1269-1372 | any part of a run of engines, recoveries and anybody's requests is a history of the kind enforcement is proved against |
| SealedCopies.SuccessMeansOnce | rust/client/src/protocol.rs:1269-1372 | a successful enforcement inside the run leaves a majority that was sealed once, which is what its step needs |
| SealedCopies.GateHoldsUnreopened | rust/client/src/engine.rs:1781-1812 | in runs where no replace hits a copy finalized with bytes the directory records, every entry but the seal record's is finalized on a majority in every state or below the floor |
| SealedCopies.LookingSuffices | rust/client/src/protocol.rs:1377-1437 | no such replace is served if every replace was guarded by a look at a copy without the recorded bytes |
| SealedCopies.BreaksExactly | rust/client/src/engine.rs:1781-1812 | a step breaks the gate exactly when it replaces a sealed copy of an entry with none to spare, or folds past an entry not sealed on a majority |
| SealedCopies.GateHoldsExactly | rust/client/src/engine.rs:1781-1812 | the gate holds on the copies throughout a run if and only if no step of the run is such a step |
| SealedCopies.LateRetryBreaksGate | rust/client/src/protocol.rs:1922-1955 | a superseded enforcer's retry breaks the gate wherever an entry has no sealed copy to spare |
| LateEnforcers.LateRetryRun | rust/client/src/protocol.rs:1922-1955 | a whole run: two recoveries, a fold and a rotation later, a retry of the same decision breaks the gate at its step |
| LateEnforcers.LateDecisionRun | rust/client/src/protocol.rs:1377-1437 | a whole run: a stalled recovery of a shorter decision replaces both sealed copies, and the bytes the directory records are on no zone |
| LateEnforcers.LateDecisionUnseals | rust/client/src/protocol.rs:1377-1437 | the two decisions of that run are what the two recoveries really decide from those copies |
| Deletion.DeletePass | rust/client/src/segment.rs:3575-3639 | touches exactly the entries that end below the view's floor; an entry counts as deleted with a majority of its copies gone and leaves the register only with every copy gone; only a lasting error on such an entry ends the pass |
| Deletion.BuriedForever | rust/client/src/segment.rs:3575-3639 | a segment some version put below its floor is below the floor of every later version and never tail or pending again |
| Deletion.PassNeverTouchesRetained | rust/client/src/segment.rs:3418-3446 | a pass over any stale version touches nothing that reaches the current floor |
| Deletion.NeverReused | rust/client/src/segment.rs:2585-2596 | an id the register once named is never introduced again |
| Deletion.SweepDead | rust/client/src/segment.rs:3463-3547 | the sweep deletes exactly the listed ids absent from its keep set with an epoch below its claim |
| Deletion.SweptIsNeverNamed | rust/client/src/segment.rs:3463-3547 | no version from the one a sweep was planned at onward names an id it deletes |
| Follower.ActiveReadDecision | rust/client/src/segment.rs:2905-2955 | terminates with the longest prefix of frames that a majority of replicas returned, or the exact reason there is none, as sets of replicas |
| Follower.WinnerIsUnique | rust/client/src/segment.rs:2934-2943 | at most one frame wins a position, whatever order the votes are kept in |
| Follower.DecisionIsUnique | rust/client/src/segment.rs:2905-2955 | the decision depends only on the observations |
| Follower.FollowerAgreesWithRecovery | rust/client/src/segment.rs:2905-2955 | every emitted frame is the admitted record at its index; every later recovery that succeeds returns it if and only if a majority still holds it, ties of an even count apart, and a majority does while the voters' copies only grow or are rewritten by decisions that carry it |
| LateReaders.LateRewriteTakesEmittedRecord | rust/client/src/protocol.rs:1377-1437 | a whole run of a writer and three recoveries: a late enforcer of a shorter decision rewrites one voter's copy, and the next recovery drops the emitted, never committed record |
| Engine.Pipeline.constructor | rust/client/src/engine.rs:423-438 | a new engine satisfies the invariant |
| Engine.Pipeline.CheckAdmission | rust/client/src/engine.rs:651-706 | admits exactly the next number that fits its frame and, with everything admitted so far, the active segment's ceiling, and refuses everything else with the error of the first check it fails |
| Engine.Pipeline.SendAdmitted | rust/client/src/engine.rs:707-741 | sending after the permits arrived keeps the invariant, whatever was dispatched or swapped since the check |
| Engine.DispatchedKeeps | rust/client/src/engine.rs:1264-1341 | a dispatched window gets exactly its callers' numbers from the segment writer, across swaps, so the mismatch branch is dead |
| Engine.Pipeline.Dispatch | rust/client/src/engine.rs:1264-1341 | moves records from the queue to the pending line in order and goes on until dispatch is paused or the next record does not fit; it stops the engine exactly when the writer refuses a window, and then every unresolved number fails once |
| Engine.Pipeline.TakeWindow | rust/client/src/engine.rs:1269-1287 | takes all that fits the window and no more, an oversized record only alone and with nothing pending; takes nothing exactly if the first record must wait |
| Engine.Pipeline.PendingWithinWindow | rust/client/src/engine.rs:1264-1287 | pending bytes exceed the window only when exactly one record is pending |
| Engine.SwappedKeeps | rust/client/src/engine.rs:1211-1243 | a swap keeps numbering without a gap and rebases the ceiling to the empty successor |
| Engine.Pipeline.SwapIfReady | rust/client/src/engine.rs:1211-1243 | swaps exactly when a rotation is due, the spare is ready and everything admitted is committed; the empty successor starts at the committed end and takes over the published seal room |
| Engine.Pipeline.Stop | rust/client/src/engine.rs:454-475 | every number pending, queued or sent gets exactly one failed receipt |
| Engine.Pipeline.CompleteReady | rust/client/src/engine.rs:1032-1099 | acknowledges every pending number in order up to the first one no quorum holds; stops the engine if and only if that one's segment has failed, and then every unresolved number fails once; otherwise nothing else gets a receipt |
| Engine.Pipeline.ReceiptsAreOrdered | rust/client/src/engine.rs:1032-1099 | successful receipts are a contiguous prefix, each backed by a quorum commit, and none follows a failure |
| Engine.Pipeline.ActiveSegmentWithinCeiling | rust/client/src/engine.rs:675-741 | the active segment's bytes never exceed the configured maximum |
| Receipts.EngineKeepsSwapRule | rust/client/src/engine.rs:1211-1243 | the engine's swap keeps the rule the frontier walk relies on |
| Receipts.ReceiptIsReplayed | rust/client/src/engine.rs:1032-1099 | every positive receipt from the old tail's base on is replayed with its record at exactly its number by any walk that succeeds |
| Receipts.ReceiptIsEmitted | rust/client/src/segment.rs:1128-1157 | replay from any checkpoint at or above the floor emits, at the number of every positive receipt from the old tail's base on, exactly the acknowledged record |

## Left out

- SealGate.AtMostOneUnenforcedSeal: counts an enforcement as done once it succeeded; what the copies then hold is in SealedCopies, where copies are not deleted (see Deletion) and a repair pass is a replace like any other.
- SealEnforcement.Enforcer.EnforceSeal: copies are enforced in any order instead of shortest shared prefix first, and copies of a foreign format are not modelled. That the counted majority is sealed, or holds the bytes, at return is not promised, because both are false of the code; CountedStillSealed and StillHeldExactly say exactly when.
- LaneSession.LaneRuntime.Recover: deadlines are a finite list of turns; an in-flight write of an earlier session landing after a resume is excluded by the storage semantics of local.rs.
- FrontierRegister.WalkSettlesRegister: record numbers are taken to fit 64 bits, the two ids the walk mints to be new, and the directory to have room for two entries, without which the code refuses the fold.
- Recovery.RecoverCandidate: freezing, re-reading and creating objects are inputs of the model, one first answer and one second reading per zone.
- Receipts.ReceiptIsEmitted: that reading a recovered segment gives the records recovery decided on is a premise, and receipts below the old tail's base, in folded segments, are covered only by Walk.ReplayFrom.
- ManifestHandle.Handle.Refresh: a failed read of the register, which changes nothing, is not modelled.
- Deletion.BuriedForever: relies on the id minting premise.
- Engine.Pipeline.Progress: the trackers' watermarks are inputs that rise within what was admitted and freeze on failure, as proved in CommitTracking.
- LaneBudget, push_command and adopt_catalog: memory accounting and queue plumbing that no result here depends on.
- Writer::seal: the live seal of a swapped segment is one step of SealGate; draining and grace periods are not modelled, and that it leaves a majority sealed once is a premise of SealedCopies.
- Repair of old sealed copies, spare provisioning, shutdown sealing and status reporting.
- gRPC sessions, redirects, authentication and listing; real time, backoff and task scheduling.
- The SlateDB adapter, metrics, benchmarks and scripts.
- File-system details of local.rs: only object and register transitions are modelled.
- The register's metadata keys are an enumeration instead of their spelled names.
