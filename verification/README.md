# DeviceAccess, a verified model

DeviceAccess reads and writes hardware registers through layers of transfer elements. This project models the parts of it
whose correctness is not visible in any single function, and proves what they are meant to guarantee.

| file | what it models |
|---|---|
| `HistoryRing.dfy`, `HistorizedMatcher.dfy`, `ReadAnyGroup.dfy`, `ReadAnyTargets.dfy`, `ReadAnyOutcomes.dfy`, `ReadAnyVersions.dfy`, `ReadAnyProgress.dfy` | the historized data consistency protocol as functions and as a step machine: history rings, match search, unbalanced pre- and post-reads, notifications and discards |
| `HistorizedMatcherObject.dfy`, `ReadAnyGroupObject.dfy` | the same as objects with the loops of the code, refining the functions |
| `SubArrayCache.dfy`, `SubArrayRuns.dfy`, `SubArrayAccess.dfy`, `SubArrayObject.dfy`, `Splicing.dfy` | sub-array accessors with their shared read-remember-modify-write buffer, the counted mutex, version-on-open, cancelled group writes |
| `AlignedWindow.dfy`, `UnalignedWrites.dfy`, `AsciiRegister.dfy` | padding and merging of raw windows, interleaved writers on one device, the ASCII accessor on top |
| `RawBits.dfy`, `NumericConverter.dfy`, `RawConverter.dfy` | bit interpretation, fixed point scaling, rounding and saturation for any bit width |
| `DecoratorStack.dfy`, `DecoratorStackObject.dfy` | the transfer state machine through a stack of decorators of any depth |
| `SimpleMatcher.dfy`, `RegisterPath.dfy`, `BackendRegisterCatalogue.dfy` | the exact matcher, register paths, the register catalogue |

Verify with `dafny verify dfyconfig.toml`.

## Conventions

- Version numbers are natural numbers, 0 is the null version. Data is a type parameter, a sample is data with version and
  validity.
- A step machine (`ReadAnyGroup`, `UnalignedWrites`, `SubArrayRuns`) has an invariant kept by every step; `Run` iterates
  steps over a list of events. What the environment is expected to do is the predicate `Allowed` of each machine: versions
  of one element are not null and never go back, an accepted update is passed to `update()`, a notification is accepted
  before the next one is asked for, all accessors of a target take part in a group transfer. Cancelled group writes and
  unreported failures are allowed if they do no harm; exact conditions for that are proved. That the machines do not get
  stuck is proved as well (`CatchUp`, `DeviceRecovers`, `WritableAfterwards`).
- History variables (`logs`, `arrived`, `outcomes`, `delivered`, `sent`, `movedIn`, `movedBack`) record what has
  happened and influence nothing.
- Where the code works in place, a class has the code's fields and loops, and each method is tied to the function of the same
  name; the properties are proved about the functions.
- Floating point numbers are exact reals. Rounding in the exact model is roundTiesToAway (section 4.3.1 of
  IEEE 754-2008).
- The statements about `RawConverter` are about the converter `m` which the constructor `Make` builds for channel `c`.
  `MakeSuits` proves once what its masks, limits and factors are.

## Findings

- After a merge, the padded window counts as aligned, so a merged element no longer reads before it writes and no longer
  takes the lock. `UnalignedWrites.ElementsLoseNothingIff`: interleaved writers lose nothing if and only if no merged window
  contains a byte of a foreign register. `MergeLosesUpdates` is an input for which updates get lost.
- A group write which is refused by some of its members because their last version is newer still leaves the slices of the
  other ones in the shared buffer, without a transfer, while the device works; or it leaves the mutex locked, if a refusing
  member comes before an accepting one. `SubArrayRuns.CancelledWriteKeepsInvIff` gives the exact condition,
  `RefusalDoesHarm` the inputs.
- TransferGroup::write does not report a failed transfer to the backend, so the device counts as working while the shared
  buffer holds slices which are not on it. On a device with known content, that is harmless if and only if the slices
  written were there already (`SubArrayRuns.RejectedWriteKeepsInvIff`, `UnreportedWriteHarmlessIff`); the input is
  `UnreportedLossDoesHarm`. `LostWriteKeepsInvIff` gives the condition for any failed transfer.
- A partial write to a register which cannot be read and has not been written since the device was opened fills the rest
  of the register with what the shared buffer remembers. `SubArrayRuns.PartialWriteReliable` gives the exact condition.
- A duplicate version costs one history slot until the next update: a ring of length H then remembers H distinct versions
  instead of H+1 (`HistoryRing.HoldsIffRecent`, `ReadAnyGroup.LetThroughIff`).
- Modifying a register's hidden flag lets map and iteration vector of the catalogue disagree
  (`BackendRegisterCatalogue.ModifyRegister`).

## Model

| member | source | states |
|---|---|---|
| `ReadAnyGroup.HistorizedSafety` | src/DataConsistencyDecorator.cc:34-97 | from any legal initial state, after any sequence of pushes, waits, polls, accepts and update calls: every user buffer (data, version and validity together) is a sample its element received or started with, and between two accepted updates all grouped accessors carry the last matched version |
| `ReadAnyGroup.AcceptIsConsistent` | include/ReadAnyGroup.h:362-390 | accepting an update of a grouped element shows that update in its own buffer and its version in all grouped accessors, each with a sample really received; a discarded update changes no user buffer at all |
| `ReadAnyGroup.LetThroughIff` | src/DataConsistencyGroupHistorizedMatcher.cc:222-257 | an update passes the read callback if and only if its version is among the H+1 (H after a duplicate) most recent distinct versions received by every other grouped element |
| `ReadAnyGroup.CompletingUpdateAccepted` | src/DataConsistencyGroupHistorizedMatcher.cc:47-61 | with strictly increasing versions, an update whose version every other element has received at most H newer ones ago is accepted and shown everywhere |
| `ReadAnyGroup.DeliveredInOrder` | include/ReadAnyGroup.h:533-559 | in every reachable state the application has seen exactly the arrived updates that were let through, once each and in order of arrival; the rest is pending in order |
| `ReadAnyOutcomes.OutcomesFollowArrivals` | include/ReadAnyGroup.h:585-651 | in every reachable state each update taken out of the queues was let through if and only if the arrivals before it say so (an ordinary element, or a version which every other grouped element remembers); what the application has seen is that part of the arrivals, whenever it waited, polled and accepted |
| `ReadAnyOutcomes.ApplicationsSeeTheSame` | include/ReadAnyGroup.h:533-559 | two runs of the same group with the same arrivals: the application which has taken fewer updates out of the queues has seen a prefix of what the other one has seen |
| `ReadAnyProgress.EverythingIsSeen` | include/ReadAnyGroup.h:533-559 | whatever has happened before, an update which does not go back in version can arrive, and calls of update, waitAny and accept then bring the application to a state in which it has seen exactly what it should see of all arrivals, this update included |
| `ReadAnyProgress.CatchUp` | include/ReadAnyGroup.h:533-542 | from every state everything which has arrived can be taken out of the queues: waiting and accepting never get stuck |
| `ReadAnyProgress.RunArrivals` | include/ReadAnyGroup.h:585-594 | the arrivals known to the group are exactly what the producers have pushed in a run |
| `ReadAnyProgress.PollFinds` | include/ReadAnyGroup.h:598-633 | polling drops updates which are not let through and hands out one which will be accepted, or leaves the queues empty |
| `ReadAnyProgress.WaitAccept` | include/ReadAnyGroup.h:533-542 | waiting and accepting take exactly one update out of the queues; it is delivered to the application or dropped as the arrivals demand |
| `ReadAnyVersions.GroupShowsLastDelivered` | include/ReadAnyGroup.h:598-633 | in every reachable state, also while an update has been found by polling and is not yet accepted, all grouped accessors show the version of the last grouped update delivered, or their initial values if there was none |
| `ReadAnyVersions.VersionsNeverDecrease` | src/DataConsistencyDecorator.cc:34-66 | between any two states of a run no accessor goes back to an older version, whether it is in the group or not |
| `ReadAnyGroup.NotificationsMatchQueues` | include/ReadAnyGroup.h:585-594 | outstanding plus pending notifications of an element equal the length of its read queue |
| `ReadAnyGroup.HandlePreReadRepairs` | include/ReadAnyGroup.h:562-581 | whatever was accepted or discarded before, when waiting starts every element has its read transaction in progress, and no logic_error is raised if update() has been called as required |
| `ReadAnyGroup.UpdateAllowsWaiting` | include/DataConsistencyGroupHistorizedMatcher.h:33 | update() for the element accepted last makes waiting and polling possible again |
| `ReadAnyGroup.AcceptStep` | include/ReadAnyGroup.h:362-390 | accept keeps the joint invariant over versions, slot contents, flags and queues, and reports exactly whether the read callback let the update through |
| `ReadAnyGroup.PeekStep` | include/ReadAnyGroup.h:598-633 | the discard-restart loop keeps the invariant, changes no user buffer and stops with either nothing pending or an update that will be accepted |
| `ReadAnyGroup.InitialInv` | src/DataConsistencyDecorator.cc:10-21 | a freshly decorated group, whose targets are left with meaningless buffers under valid labels, satisfies the invariant |
| `ReadAnyGroup.Step` | include/ReadAnyGroup.h:362-651 | every step of a run (arrival, waitAny, waitAnyNonBlocking, accept, update) keeps the invariant |
| `HistorizedMatcher.ReadCallbackStep` | src/DataConsistencyDecorator.cc:71-97 | after a received update either a match is pending for it or the group is settled as before, and no match held by all elements has been overlooked |
| `HistorizedMatcher.PostReadStep` | src/DataConsistencyDecorator.cc:34-66 | completing a pending match brings all decorators to the matched version with genuine data and settles the group, although preRead was called for the caller only |
| `HistorizedMatcher.SwapKeepsElementOk` | src/DataConsistencyDecorator.cc:62-65 | swapping the matching slot with the user buffer leaves a stale buffer in a labelled slot, yet every slot newer than what the user sees stays genuine |
| `HistorizedMatcher.SwapPermutes` | src/DataConsistencyDecorator.cc:62-65 | the swap exchanges the buffers of application, target and history, none is copied or lost |
| `HistorizedMatcher.ReadCallbackFrame` | src/DataConsistencyGroupHistorizedMatcher.cc:222-257 | the match search finds every other element exactly when it holds the version, and touches nothing but match indices and the last matching version |
| `HistorizedMatcher.MatchIsNewest` | src/DataConsistencyGroupHistorizedMatcher.cc:92-118 | nobody shows a version newer than the one matched, and if the receiver shows it already then so do all: the cases in which post-reads may be skipped |
| `HistorizedMatcher.PreReadStep` | src/DataConsistencyGroupHistorizedMatcher.cc:65-88 | preRead starts all read transactions when some are missing; it fails exactly when an accepted update has not been passed to update() |
| `HistoryRing.ReceiveKeepsShape` | src/DataConsistencyGroupHistorizedMatcher.cc:261-295 | for any non-decreasing versions, labels in target and history stay exactly the most recent distinct versions in descending order, slot 0 invalid exactly after a duplicate |
| `HistoryRing.HoldsIffRecent` | src/DataConsistencyGroupHistorizedMatcher.cc:237-247 | a ring with H slots holds a version if and only if it is among the H+1 (H after a duplicate) most recent distinct ones |
| `HistoryRing.DistinctAscends` | src/DataConsistencyGroupHistorizedMatcher.cc:47-58 | the distinct non-null versions received are strictly ascending, so the ring holds no version twice |
| `HistoryRing.RotatePermutes` | src/DataConsistencyGroupHistorizedMatcher.cc:281-293 | swapping into the history permutes the buffers, none is copied or lost |
| `HistorizedMatcherObject.Matcher.UpdateHistory` | src/DataConsistencyGroupHistorizedMatcher.cc:261-295 | the in-place rotation loop arrives at the specified ring |
| `HistorizedMatcherObject.Matcher.FindMatch` | src/DataConsistencyGroupHistorizedMatcher.cc:222-257 | the search loop sets match indices up to the first element without the version, and the last matching version on success only |
| `HistorizedMatcherObject.Matcher.ReadCallback` | src/DataConsistencyDecorator.cc:71-97 | refines the callback function: history, post-read of the target, duplicate handling, match search |
| `HistorizedMatcherObject.Matcher.HandleMissingPreReads` | src/DataConsistencyGroupHistorizedMatcher.cc:65-88 | recursion guard, usage check and the loop over all other elements |
| `HistorizedMatcherObject.Matcher.HandleMissingPostReads` | src/DataConsistencyGroupHistorizedMatcher.cc:92-118 | recursion guard and the loop that post-reads exactly the elements behind the last match |
| `HistorizedMatcherObject.Matcher.PostRead` | src/DataConsistencyDecorator.cc:34-66 | refines the post-read function of a decorator, including the indirect post-reads of the other ones |
| `HistorizedMatcherObject.Matcher.PreRead` | src/DataConsistencyDecorator.cc:26-29 | refines the pre-read function of a decorator |
| `HistorizedMatcherObject.Matcher.Update` | src/DataConsistencyGroup.cc:122-142 | update() remembers a member of the group, whose preRead is possible afterwards, and ignores other elements |
| `HistorizedMatcherObject.Matcher.IsConsistent` | src/DataConsistencyGroupHistorizedMatcher.cc:204-218 | true if and only if all decorators carry the same version |
| `ReadAnyGroupObject.Reader.Accept` | include/ReadAnyGroup.h:362-390 | refines accept on queues, flags and matcher state |
| `ReadAnyGroupObject.Reader.HandlePreRead` | include/ReadAnyGroup.h:562-581 | the three cases of the last operation index |
| `ReadAnyGroupObject.Reader.Update` | src/DataConsistencyGroup.cc:122-142 | update() called by the application; waiting is possible afterwards if it was for the element accepted last |
| `ReadAnyGroupObject.Reader.WaitAnyNonBlocking` | include/ReadAnyGroup.h:598-651 | the restart loop refines the polling step; it terminates on the number of pending notifications |
| `ReadAnyGroupObject.Reader.ReadAny` | include/ReadAnyGroup.h:533-542 | delivers to the application the next update which is to be let through, after dropping exactly those before it which are not; none only if all queues are empty then. Outcomes and delivered updates follow from the arrivals alone. The poll-type elements are brought up to date if something was delivered |
| `ReadAnyGroupObject.Reader.ReadAnyNonBlocking` | include/ReadAnyGroup.h:546-559 | the same by polling; the poll-type elements are brought up to date in any case |
| `ReadAnyGroupObject.Reader.ProcessPolled` | include/ReadAnyGroup.h:655-660 | all poll-type elements show what their registers hold |
| `ReadAnyTargets.TargetsReadWhileWaiting` | src/DataConsistencyDecorator.cc:92-95 | each time waitAny starts waiting, the targets of all decorators have their read transactions in progress too, whatever has been accepted and discarded before |
| `ReadAnyTargets.AcceptEndsTransactions` | include/TransferElement.h:474-489 | accepting an update ends exactly the read transactions of the elements which show something new |
| `SubArrayRuns.CacheCoherence` | include/SubArrayAccessorDecorator.h:148-204 | over every run of opens, failures, reads, writes and cancelled writes that do no harm, by any number of accessors and targets: while the device works, a shared buffer not older than version-on-open equals the register, and the mutex is free between transfers |
| `SubArrayRuns.CancelledWriteKeepsInvIff` | src/TransferGroup.cc:112-160 | a group write cancelled because some member refuses the version, or for a reason in another register, keeps coherence and the free mutex if and only if all members of the target refuse, or no accepting member comes after the point where the loop of postWrites is left and the slices put into the shared buffer agree with the device (or the device is broken, or the buffer is older than version-on-open) |
| `SubArrayRuns.RefusalDoesHarm` | src/TransferGroup.cc:148-150 | a concrete group of two and a version older than one member's: in one order the shared buffer no longer agrees with the working device, in the other one the mutex stays locked |
| `SubArrayRuns.CancelledLocked` | src/TransferGroup.cc:131-154 | after a cancelled write the mutex is free if and only if every member from the point where the loop is left has refused |
| `SubArrayRuns.AgreesIffAlreadyThere` | include/SubArrayAccessorDecorator.h:168-175 | on a working device whose content is known, that agreement means that each accepted slice has the content the device has there already |
| `SubArrayRuns.RestIsRemembered` | include/SubArrayAccessorDecorator.h:161-188 | a later write through any target sends the shared buffer's bytes outside its own slices, a slice left there by a cancelled write included |
| `SubArrayRuns.LostWriteKeepsInvIff` | src/TransferGroup.cc:125-151 | a write whose transfer fails keeps coherence if and only if the failure is reported to the backend (TransferGroup::write does not), or the device holds what should have been written, or nobody relies on the shared buffer |
| `SubArrayRuns.RejectedWriteKeepsInvIff` | src/TransferGroup.cc:125-151 | if the device works and its content is known, a rejected and unreported write keeps coherence if and only if every slice written has the content the device has there already |
| `SubArrayRuns.UnreportedWriteHarmlessIff` | src/TransferGroup.cc:125-151 | the same if the failed transfer has reached any part of the bytes: it is harmless in all cases if and only if there was nothing to change |
| `SubArrayRuns.UnreportedLossDoesHarm` | src/TransferGroup.cc:125-151 | a concrete group of two whose members accept the version and whose transfer is rejected: the shared buffer no longer agrees with the working device |
| `SubArrayRuns.StepKeepsInv` | include/SubArrayAccessorDecorator.h:106-204 | each transfer (successful, failed, failed in its initial read, or cancelled without harm) keeps coherence, transaction flags and version bounds |
| `SubArrayAccess.WriteReadRoundTrip` | include/SubArrayAccessorDecorator.h:106-204 | after a successful write of any group, a successful read of any group (the same or another one) is possible and shows, byte by byte, what has been written, or what the write has found on the device or in the shared buffer |
| `SubArrayAccess.DeviceRecovers` | src/DeviceBackendImpl.cc:12-23 | from every state, broken or never opened, with accessor versions generated before: opening the device, taking a new version, setting a user buffer, writing its group and reading back is possible; the device then works, the register holds the user buffers over what has been on a readable device, and the accessor shows its own data |
| `SubArrayAccess.WriteKeepsUsers` | include/TransferElement.h:575-592 | a write event changes no user buffer and no validity; its version is taken over by all accessors written if the transfer succeeds, by none otherwise |
| `SubArrayAccess.CancelKeepsUsers` | src/TransferGroup.cc:131-154 | the same for a cancelled write: the version is taken over exactly by the members which have accepted it and whose postWrite has been reached without exception |
| `SubArrayAccess.FailedWriteLeaves` | src/TransferGroup.cc:125-151 | after a failed write the device holds what the transfer has left there, the shared buffer what should have been written, and the backend knows if it was told |
| `SubArrayAccess.CancelLeaves` | src/TransferGroup.cc:131-154 | a cancelled write sends nothing to the device, and leaves the slices of those which have accepted in the shared buffer |
| `SubArrayAccess.ReadLeaves` | include/SubArrayAccessorDecorator.h:120-144 | a read changes nothing on the device; without data shared buffer and accessors are as before |
| `SubArrayRuns.PartialWriteChangesSlice` | include/SubArrayAccessorDecorator.h:156-171 | a successful partial write changes the register exactly in the slices written, if the register is readable or known since opening |
| `SubArrayRuns.PartialWriteReliable` | include/SubArrayAccessorDecorator.h:156-166 | that condition is exact: a partial write keeps everything outside its slices for every possible device content if and only if the register is readable, or known since opening, or nothing is outside |
| `SubArrayRuns.PartialWriteOtherwise` | include/SubArrayAccessorDecorator.h:156-171 | without read access the bytes outside are those of the shared buffer, hence unchanged exactly if they agree |
| `SubArrayCache.GroupWriteSendsUnion` | include/SubArrayAccessorDecorator.h:149-204 | for any orders of pre and post calls of all accessors of a target, the device receives the overlay of all slices, with their combined validity, in one transfer; the shared buffer moves into the target once and back once (once more each for the initial read), the mutex ends free |
| `SubArrayCache.GroupReadFillsSlices` | include/SubArrayAccessorDecorator.h:106-144 | the same for reads: one move in, one back; on success each accessor of the group shows, byte by byte, its own part of the register, validity Ok and the new version (or its own newer one), and all others are unchanged; on failure shared state and accessors are as before |
| `SubArrayCache.OverlayIsUnion` | include/SubArrayAccessorDecorator.h:168-170 | each byte of the overlay comes from the one slice that covers it, otherwise from the base |
| `SubArrayCache.PreWriteAllCollects` | include/SubArrayAccessorDecorator.h:149-189 | before the last pre call the target has not been touched; the last one hands over the collected slices |
| `SubArrayCache.PostWriteAllReturns` | include/SubArrayAccessorDecorator.h:194-204 | the first post call takes the buffer back, the last one frees the mutex |
| `SubArrayObject.SharedRegister.DoPreWrite` | include/SubArrayAccessorDecorator.h:149-189 | refines the pre-write phase: lock, initial read, slice loop, version, validity, hand-over by the last accessor |
| `SubArrayObject.SharedRegister.DoPostWrite` | include/SubArrayAccessorDecorator.h:194-204 | refines the post-write phase |
| `SubArrayObject.SharedRegister.DoPreRead` | include/SubArrayAccessorDecorator.h:106-115 | refines the pre-read phase: the first accessor moves the buffer |
| `SubArrayObject.SharedRegister.DoPostRead` | include/SubArrayAccessorDecorator.h:120-144 | refines the post-read phase; with new data the accessor then shows its own part of the shared buffer byte by byte, with its validity and the larger version, and no other accessor changes |
| `SubArrayObject.SharedRegister.CopySlice` | include/SubArrayAccessorDecorator.h:168-170 | the element loop splices the user buffer into the shared one at its offset |
| `SubArrayObject.SharedRegister.ReadSlice` | include/SubArrayAccessorDecorator.h:139-141 | the element loop copies the slice at the accessor's offset |
| `SubArrayObject.SharedRegister.WriteAlone` | include/TransferElement.h:205-221 | a complete write outside a transfer group is refused exactly for a version older than the accessor's last one, changing nothing; otherwise it keeps the invariant, changes a register which is readable or known since opening exactly in the accessor's slice, and takes over the version in this accessor only; all user buffers stay |
| `SubArrayObject.SharedRegister.PreWriteMembers` | src/TransferGroup.cc:117-123 | the loop of preWrites over the members of a target: those which accept the version are prepared in their order, the others change nothing |
| `SubArrayObject.SharedRegister.SharedBufferToTarget` | include/SubArrayAccessorDecorator.h:257-262 | swaps the data, passes on the validity |
| `SubArrayObject.SharedRegister.TargetToSharedBuffer` | include/SubArrayAccessorDecorator.h:267-273 | swaps back, version becomes the larger one, validity is taken over |
| `SubArrayObject.SharedRegister.SetOpenedAndClearException` | src/DeviceBackendImpl.cc:12-23 | afterwards the device is open and without exception, with a version-on-open newer than all versions before, so that the shared buffer is not relied on; user buffers and shared buffer stay |
| `SubArrayObject.SharedRegister.SetException` | src/DeviceBackendImpl.cc:27-47 | breaks the device; only the first message is kept |
| `SubArrayObject.CountedRecursiveMutex.Lock` | src/CountedRecursiveMutex.cc:25-28 | counts recursive locks of one owner |
| `SubArrayObject.CountedRecursiveMutex.TryLock` | src/CountedRecursiveMutex.cc:32-38 | succeeds exactly if free or owned by the caller, counts only then |
| `SubArrayObject.CountedRecursiveMutex.Unlock` | src/CountedRecursiveMutex.cc:18-22 | the mutex is free exactly when the count is back at zero |
| `UnalignedWrites.UnmergedWritersLoseNothing` | include/NumericAddressedLowLevelTransferElement.h:62-75 | for disjoint non-empty registers whose elements are unmerged, in any interleaving of locked read-modify-writes, direct writes, failed and torn transfers every byte is what its owner has been asked for before its last transfer (old or new if that has failed half-way) |
| `UnalignedWrites.ElementsLoseNothingIff` | include/NumericAddressedBackendASCIIAccessor.h:208-219 | for elements set up and merged in any way by the code: no interleaving loses an update if and only if no merged window contains a byte of a foreign register |
| `UnalignedWrites.ElementsSeparatedIff` | include/NumericAddressedLowLevelTransferElement.h:137-154 | the same condition, for the separation of the raw windows; no restriction as long as nothing has been merged |
| `UnalignedWrites.MergedNeverLocks` | include/NumericAddressedLowLevelTransferElement.h:143-154 | setAddress finds nothing to pad in a merged window, so a merged element counts as aligned |
| `UnalignedWrites.MergeLosesUpdates` | include/NumericAddressedBackendASCIIAccessor.h:208-217 | a concrete merge of two registers around a foreign one, after which some run loses an update |
| `UnalignedWrites.FilledInOneRegister` | include/NumericAddressedBackendASCIIAccessor.h:130-138 | for a single register, filling in its bytes is writing its content at its offset |
| `UnalignedWrites.NothingLostIffSeparated` | include/NumericAddressedLowLevelTransferElement.h:62-75 | for writers owning any number of registers, no interleaving loses an update if and only if a raw window reaches into a register of another writer only when both writers take the lock |
| `UnalignedWrites.WrittenStays` | include/NumericAddressedLowLevelTransferElement.h:47-75 | once the transfer of a separated writer is done, its registers hold what it has been asked for, whatever the others do, until it starts another one |
| `UnalignedWrites.WriteCompletes` | include/NumericAddressedBackendASCIIAccessor.h:124-152 | if all writers are idle, each can write: its registers hold the content, a locking writer changes nothing else, a direct one fills the rest of its window with the leftover of its raw buffer, and all are idle again |
| `UnalignedWrites.FailedWriteReleases` | include/NumericAddressedLowLevelTransferElement.h:71-75 | a write which fails in any phase releases the lock; the device is as before, or torn within the window if the transfer itself has failed |
| `UnalignedWrites.WritableAfterwards` | include/NumericAddressedLowLevelTransferElement.h:62-75 | no run leads into a dead end: afterwards all writers can finish, and each register can be written |
| `UnalignedWrites.SeparatedRunLosesNothing` | include/NumericAddressedLowLevelTransferElement.h:47-75 | sufficiency, over every run |
| `UnalignedWrites.DirectWriterOverwrites` | include/NumericAddressedLowLevelTransferElement.h:135-154 | an element whose already padded window counts as aligned (after a merge) overwrites a neighbouring register with the leftover of its raw buffer |
| `UnalignedWrites.LockedWriterRestores` | include/NumericAddressedLowLevelTransferElement.h:62-75 | a locking writer undoes a neighbour's write that does not take the lock |
| `AlignedWindow.PaddedIsSmallest` | include/NumericAddressedLowLevelTransferElement.h:143-154 | setAddress pads to the smallest aligned window covering the request |
| `AlignedWindow.AlignedAvoidsPadded` | include/NumericAddressedLowLevelTransferElement.h:143-154 | an aligned range that does not meet a non-empty request does not meet its padded window |
| `AlignedWindow.MergedIsUnion` | include/NumericAddressedBackendASCIIAccessor.h:208-217 | merging touching aligned windows gives exactly their union, aligned, without new padding |
| `AlignedWindow.TouchingIffNoGap` | include/NumericAddressedLowLevelTransferElement.h:91-94 | windows are mergeable exactly if the merged window contains no byte outside of both |
| `AsciiRegister.LowLevelElement.IsMergeable` | include/NumericAddressedLowLevelTransferElement.h:82-95 | exactly for the same bar of the same backend, if that allows merging and the windows leave no gap |
| `AlignedWindow.MergeIsUnion` | include/NumericAddressedBackendASCIIAccessor.h:208-219 | after merges in any order and grouping, of elements merged before or not, the window is exactly the union of the padded windows of all requests, aligned, without new padding, and covers every request |
| `AsciiRegister.LowLevelElement.SetAddress` | include/NumericAddressedLowLevelTransferElement.h:137-161 | the padding arithmetic arrives at the padded window, and the flag says whether anything was padded |
| `AsciiRegister.LowLevelElement.ChangeAddress` | include/NumericAddressedLowLevelTransferElement.h:124-127 | as setAddress, and the element counts as shared |
| `AsciiRegister.LowLevelElement.DoPreWrite` | include/NumericAddressedLowLevelTransferElement.h:62-69 | takes the lock and reads the window exactly if unaligned |
| `AsciiRegister.LowLevelElement.DoWriteTransfer` | include/NumericAddressedLowLevelTransferElement.h:47-52 | the device changes in the whole window |
| `AsciiRegister.LowLevelElement.DoPostWrite` | include/NumericAddressedLowLevelTransferElement.h:71-75 | releases the lock if and only if it is held by this element |
| `AsciiRegister.AsciiAccessor.WriteUnmerged` | include/NumericAddressedBackendASCIIAccessor.h:124-152 | a complete write of an unmerged element changes the device exactly in the register's own bytes, nothing if the device is closed |
| `AsciiRegister.AsciiAccessor.Write` | include/NumericAddressedBackendASCIIAccessor.h:124-152 | a complete write in general, including merged elements; the lock is free afterwards |
| `AsciiRegister.AsciiAccessor.DoPostRead` | include/NumericAddressedBackendASCIIAccessor.h:95-122 | an exception is handed to the raw accessor and re-thrown; without one and with new data the strings are decoded from the register's place in the raw buffer and version and validity are taken over, otherwise nothing changes; nothing happens on a closed device |
| `AsciiRegister.LowLevelElement.PostRead` | include/TransferElement.h:474-489 | one new version per transfer, the exception is thrown on each call |
| `AsciiRegister.AsciiAccessor.ReplaceTransferElement` | include/NumericAddressedBackendASCIIAccessor.h:208-219 | merging yields the union window, which no longer counts as unaligned; every register covered before still is |
| `AsciiRegister.FillElements` | include/NumericAddressedBackendASCIIAccessor.h:130-138 | the write loop splices the encoded elements into the raw buffer |
| `AsciiRegister.ReadElements` | include/NumericAddressedBackendASCIIAccessor.h:103-115 | the read loop decodes element by element |
| `AsciiRegister.PaddingArithmetic` | include/NumericAddressedLowLevelTransferElement.h:142-154 | modulus arithmetic of setAddress against the floor and ceiling of the range |
| `AsciiCodec.RoundTripAll` | include/NumericAddressedBackendASCIIAccessor.h:103-138 | strings written are read back, up to their first zero byte and the element size |
| `AsciiCodec.EncodedByte` | include/NumericAddressedBackendASCIIAccessor.h:133-138 | byte k of element e in the raw buffer is that of the string, and zero from its first zero byte on |
| `RawConverter.InterpretIsValue` | include/RawConverter.h:366-400 | cast path and generic mask path, whichever is selected, give the two's complement (or unsigned) value of the low w bits, for all 1 <= w <= N <= 64 |
| `RawConverter.FastRefinesSlow` | include/RawConverter.h:489-510 | whenever fixedNegativeFast is selected it gives what the 64-bit path gives, the value times 2^k, which the user type can hold |
| `RawConverter.ToCookedRepresents` | include/RawConverter.h:475-511 | all five paths give the value times 2^-n, rounded half away from zero and clamped to the user type |
| `RawConverter.ToRawRepresents` | include/RawConverter.h:524-554 | toRaw yields w bits whose value is x times 2^n, rounded half away from zero and clamped to the w-bit range |
| `RawConverter.MakeSuits` | include/RawConverter.h:409-463 | the constructor throws exactly for n > w and for negative n with w - n > 64; otherwise masks, limits and factors are right for the channel |
| `RawConverter.Masks` | include/RawConverter.h:338-361 | the mask tables, truncated to the raw type |
| `RawConverter.RawSurvives` | include/RawConverter.h:475-554 | any raw number whose value the user type can hold is shown exactly and comes back masked to w bits |
| `RawConverter.RawSurvivesIff` | include/RawConverter.h:475-554 | exactly which raw numbers come back through toCooked and toRaw, for every user type and number of fractional bits: those shown within half a step, and the limits if shown beyond themselves |
| `RawConverter.IntegerRoundTrip` | include/RawConverter.h:475-554 | an integer written is read back clamped to the w-bit range, for every integer user type |
| `RawConverter.QuantisationBound` | include/RawConverter.h:530-553 | for every user type, a number in the range of the register comes back with an error of at most 2^-(n+1); integers come back exactly if the register has no negative number of fractional bits |
| `RawConverter.ToRawMonotone` | include/RawConverter.h:524-554 | toRaw is monotone |
| `RawConverter.ToRawSaturates` | include/RawConverter.h:545-552 | beyond the limits toRaw gives the largest and smallest raw pattern |
| `RawConverter.StoreClamps` | include/RawConverter.h:545-553 | clamping to the raw type first and to w bits afterwards is clamping to w bits |
| `RawBits.AndMask` | include/RawConverter.h:345-348 | masking with the used bits is the remainder by 2^w |
| `RawBits.OrUpperBits` | include/RawConverter.h:338-341 | setting the unused bits is sign extension |
| `RawBits.ShiftOfCast` | include/RawConverter.h:495-509 | a left shift of the unsigned representation does not wrap if the product fits |
| `NumericConverter.ConvertRepresents` | include/NumericConverter.h:122-178 | every numeric conversion gives the nearest value of the target type: rounding and clamping |
| `NumericConverter.ConvertRealClamps` | include/NumericConverter.h:137-173 | float to integer |
| `NumericConverter.ConvertIntClamps` | include/NumericConverter.h:137-176 | integer to integer, any widths and signedness |
| `NumericConverter.RoundIsNearest` | include/NumericConverter.h:41-56 | the rounding is the unique nearest integer, ties away from zero |
| `DecoratorStack.WriteIsAllOrNothing` | include/TransferElement.h:205-221 | for any depth and a failure in any layer's version check or any backend phase: buffers restored, flags clear, the version advances on all layers or on none, an executed transfer saw the outermost data and validity; the validity is passed on inwards up to the first layer which finds the version too old and stays on the others; an exception stays with the innermost layer reached |
| `DecoratorStack.PostWriteUndoes` | include/NDRegisterAccessorDecorator.h:211-221 | postWrite undoes preWrite, however far that came, except for the validity passed on inwards; the exception is handed over to the innermost layer reached |
| `DecoratorStack.PreWriteDelivers` | include/NDRegisterAccessorDecorator.h:199-206 | unless an exception is thrown the innermost element holds the outermost user data; an exception is thrown exactly for a version older than some layer's or a backend failure |
| `DecoratorStack.ReadIsAllOrNothing` | include/TransferElement.h:117-134 | a read either brings data and meta data to all layers, shifting the old buffers inwards, or leaves all buffers alone; with an exception, which stays with the innermost layer, the meta data stays too; without new data it is the innermost one's on all layers; flags are clear in any case |
| `DecoratorStack.PostReadShiftsIn` | include/NDRegisterAccessorDecorator.h:180-194 | where the buffers go on success |
| `DecoratorStack.PostReadWithoutData` | include/TransferElement.h:474-489 | no buffer changes without new data; with an exception meta data stays, without one it is copied outwards from the innermost element |
| `DecoratorStackObject.AccessorStack.Write` | include/TransferElement.h:205-221 | refines the write of a whole stack; the device sees data exactly if the transfer ran |
| `DecoratorStackObject.AccessorStack.PreWrite` | include/TransferElement.h:531-542 | flag, version check and delegation, channel loop included |
| `DecoratorStackObject.AccessorStack.PostWrite` | include/TransferElement.h:575-592 | exception hand-over, swap back in any case, version update on success |
| `DecoratorStackObject.AccessorStack.PostRead` | include/NDRegisterAccessorDecorator.h:180-194 | exception hand-over, meta data, channel loop |
| `DecoratorStackObject.AccessorStack.SwapChannels` | include/NDRegisterAccessorDecorator.h:201-203 | the channel loop exchanges the two buffers |
| `DecoratorStackObject.AccessorStack.Pop` | include/TransferElement.h:382-390 | discarded queue entries are skipped |
| `DecoratorStackObject.AccessorStack.ReadNonBlocking` | include/TransferElement.h:147-180 | one entry is taken and treated like a read of what it carries |
| `DecoratorStackObject.AccessorStack.ReadLatest` | include/TransferElement.h:186-200 | takes everything up to the first error; throws exactly if there is one; the stack shows the last value taken on all layers; without a value the buffers are as before, and the meta data as well or, at the end of the queue, the innermost one's; the result says whether there was a value |
| `SimpleMatcher.Matcher.Receive` | src/DataConsistencyGroupSimpleMatcher.cc:10-22 | update returns true exactly when every member has been updated and all carry the largest version seen |
| `SimpleMatcher.Matcher.IsConsistent` | src/DataConsistencyGroupSimpleMatcher.cc:26-28 | the same condition as a query |
| `SimpleMatcher.SameIsLargest` | src/DataConsistencyGroupSimpleMatcher.cc:10-22 | which is the same as: all members carry one version |
| `RegisterPaths.RemoveExtraSeparators` | include/RegisterPath.h:197-204 | terminates for every string and keeps the components; with a leading separator the result is the joined component list, and a standardised path is left alone |
| `RegisterPaths.JoinIsStandard` | include/RegisterPath.h:189-204 | standardised paths are exactly the joined component lists; standardising is idempotent |
| `RegisterPaths.StandardIsJoin` | include/RegisterPath.h:158-172 | joining the components rebuilds the path |
| `RegisterPaths.SamePathIffSameComponents` | include/RegisterPath.h:117-120 | paths are equal if and only if their components are |
| `RegisterPaths.SplitAtSeparator` | include/RegisterPath.h:59-63 | components of two strings joined by a separator |
| `RegisterPaths.RegisterPath.Append` | include/RegisterPath.h:59-63 | components of p /= s are those of p followed by those of s |
| `RegisterPaths.RegisterPath.CutRight` | include/RegisterPath.h:84-96 | drops the last component, "/" stays "/" |
| `RegisterPaths.RegisterPath.CutLeft` | include/RegisterPath.h:101-114 | drops the first component |
| `RegisterPaths.RegisterPath.GetComponents` | include/RegisterPath.h:158-172 | the loop finds exactly the components |
| `RegisterPaths.RegisterPath.Concatenate` | include/RegisterPath.h:66-70 | string concatenation, standardised |
| `BackendRegisterCatalogues.BackendRegisterCatalogue.AddRegister` | include/BackendRegisterCatalogue.h:392-401 | refused exactly for a known name; otherwise appended, containers still agree |
| `BackendRegisterCatalogues.BackendRegisterCatalogue.HasRegister` | include/BackendRegisterCatalogue.h:322-326 | true exactly for the names of the registers, hidden ones included |
| `BackendRegisterCatalogues.BackendRegisterCatalogue.RemoveRegister` | include/BackendRegisterCatalogue.h:406-422 | removes exactly that register from map and vector, the order of the others stays; refused exactly for an unknown name |
| `BackendRegisterCatalogues.BackendRegisterCatalogue.ModifyRegister` | include/BackendRegisterCatalogue.h:427-434 | replaces the entry in place; the containers agree afterwards if and only if the hidden flag is kept |
| `BackendRegisterCatalogues.BackendRegisterCatalogue.IteratesVisible` | include/BackendRegisterCatalogue.h:338-353 | the iteration lists exactly the visible registers, once each, in order of insertion |
| `BackendRegisterCatalogues.BackendRegisterCatalogue.FillFromThis` | include/BackendRegisterCatalogue.h:377-387 | copies all registers, then points to the copies in the same order |
| `BackendRegisterCatalogues.BackendRegisterCatalogue.Clone` | include/BackendRegisterCatalogue.h:357-370 | same registers in the same order, no entry shared |
| `BackendRegisterCatalogues.VisibleWithout` | include/BackendRegisterCatalogue.h:413-417 | removing a visible register removes exactly its place in the iteration order |
| `BackendRegisterCatalogues.VisibleReplaced` | include/BackendRegisterCatalogue.h:432-433 | a modification keeps the iteration order if and only if it keeps the flag |

## Left out

- ReadAnyGroupObject.Reader.ReadAny: with no notification pending the code blocks; the model returns None instead.
- SubArrayObject.SharedRegister.SetException: the backend-specific hook and the notification of asynchronous accessors are not modelled.
- BackendRegisterCatalogues.BackendRegisterCatalogue.RemoveRegister: removal of hidden registers, for which the code has an assertion, is excluded.
- Queues: `future_queue` and `when_any` are plain FIFOs; one notification is outstanding at a time; exceptions in the read queues are left out of the historized protocol (they are part of the decorator stack).
- Threads: each phase of a transfer is one step; interruption and timing are left out.
- `TransferGroup` itself, apart from its effect on the members sharing a target: all pre calls come before the transfer and
  all post calls after it, a cancelled write has no transfer, failures are not reported. Members of other registers appear
  only as reasons for cancelling.
- Sub-array accessors of one-dimensional registers only; writes on accessors whose writing has been turned off; conversion
  between user type and target type; `writeDestructively`.
- Decorators that override the phases in their own way (other than the sub-array and the consistency decorator), conversion between different user types in decorators.
- The IEEE754, string, Void and Boolean conversions, NaN, infinity, and rounding inside double arithmetic (widths above 53).
- Invalid bar numbers (the constructor throws) and the range checks of the ASCII accessor's constructor.
- Alternative separators of register paths, paths built from integers.
- Members added to the exact matcher after the first update.
- Factories, map file parsers, metadata, double buffering, muxed accessors: plumbing or separate algorithms.
