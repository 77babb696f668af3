# Verified core of the Grandine consensus client

This project models the parts of the client whose behaviour is decided by its own code, and proves what that code is
meant to guarantee: agreement of independent computations of the same thing, safety over every run of a state machine,
transformations that lose nothing, round trips, and conservation.

| area | modules |
|---|---|
| slot clock and tick stream | `Clock`, `TickStream` |
| doppelganger protection | `Doppelganger`, `DoppelgangerRuns`, `DoppelgangerActivation`, `DoppelgangerHistory`, `DoppelgangerExecution` |
| attestation verifier scheduling | `AttestationVerifier` |
| Electra attestation packing | `ElectraAggregation`, `OnChainAggregates`, `AggregateDecoding`, `AttestingBits`, `BlockAttestations` |
| key-value database with two backends | `ByteOrder`, `OrderedMap`, `Database`, `DatabaseRuns` |
| Eth1 cache, deposits, stream and downloader | `BlockKeys`, `Eth1Blocks`, `Eth1Cache`, `Eth1Deposits`, `Eth1Downloads`, `Eth1Stream` |
| Merkle tree and deposit tree | `MerkleTree`, `DepositTree` |
| swap-or-not shuffling | `Shuffling` |
| execution request codec | `ExecutionRequests`, `RequestsRoundTrip` |
| data availability sampling | `CustodyGroups`, `PeerDas`, `Reconstruction` |
| builder circuit breaker | `BuilderApi` |
| shared | `Results`, `Arithmetic`, `Sequences` |

`dafny verify dfyconfig.toml` checks everything.

Hashes, BLS signatures, KZG recovery, value compression and the liveness, Eth1 and signer APIs are parameters. Where a
result needs something of them it is a stated precondition: per-row KZG recovery is correct, the Eth1 API answers inside
the requested range, SSZ containers of fixed size are byte strings of that size.

Things the code does that its documentation or its other parts do not say:

- The search for the next tick (`next_tick_with_instant`) adds the duration of the tick it enters, the stream that of the
  tick it leaves. They disagree exactly when the search starts after the last candidate of the slot before the Gloas
  fork. It then returns what an exact search would return later by the difference of the two tick durations, and a
  stream started there stays early by that amount. `TickStream.NextTickWithInstant` gives the exact condition and
  `TickStream.SearchAtFork` the result at one such time.
- `delete_range` of the in-memory backend panics on an inverted range whose end is a stored key; the persistent backend
  ignores such a range. `DatabaseRuns.RunBoth` shows that nothing else tells the backends apart.
- `recover_matrix` numbers the recovered rows anew, so a row without any entry moves the later ones up.
  `Reconstruction.RecoveredIsFull` shows that this is the only way to lose the original matrix, and
  `Reconstruction.MissingRowMovesUp` what is recovered then; `Reconstruction.FirstRowIsLost` is an instance of two rows.
- `Tick::delay` fails from slot 2^32 on, because a duration can only be multiplied by a 32-bit number
  (`Clock.DelayIsRemainder`; `Clock.DelayFailsAtSlot` shows it at the start of that slot).
- `shuffle_single` saturates when the pivot and the count exceed 64 bits together. Saturation always spoils the flip
  (`Shuffling.FlipSaturates`); some index can then go to the wrong place exactly for counts above half of the range
  (`Shuffling.WrongExactlyForLargeCounts`).
- The floor law of `from_duration` holds in a slot exactly when the slot divides evenly into its ticks
  (`Clock.FloorLawNeedsEvenTicks`; `Clock.FloorLawFailsAt100Ms` shows a slot where it does not).
- `download_and_store_deposits` first asks for the block after the earliest one. A deposit in the earliest block, which is
  where the first one lies when no starting block is configured, is then never fetched, and the tree never grows.
  `Eth1Downloads.CompleteExactlyWhen` gives the exact condition and `Eth1Downloads.DownloadAfterFirstDeposit` an instance.

## Model

| member | source | states |
|---|---|---|
| `Clock.StartMonotone` | clock/src/lib.rs:540-555 | a tick with its whole duration ends no later than any later tick starts, also across the change from 12 to 16 ticks |
| `Clock.NextIsSuccessor` | clock/src/lib.rs:296-307 | `next` fails only on the last tick of the last slot; otherwise it skips no tick and its start is the old start plus the duration of the tick left |
| `Clock.EmittedKinds` | clock/src/lib.rs:192-227 | the stream hands out exactly the first and the last tick of every interval of four |
| `Clock.EmittedInSlot` | clock/src/lib.rs:192-227 | the six, or from Gloas on eight, ticks of a slot that are handed out |
| `Clock.TicksFromGloas` | clock/src/lib.rs:355-369 | a slot has 16 ticks if and only if all forks up to Gloas are scheduled and have happened |
| `Clock.TickWithinSlot` | clock/src/lib.rs:249-290 | dividing by the tick duration and reducing modulo the tick count is the same as dividing the time since the start of the slot |
| `Clock.FromElapsedIsFloor` | clock/src/lib.rs:249-290 | the tick found starts no later than the time, and no later tick does |
| `Clock.FromDurationIsFloor` | clock/src/lib.rs:249-290 | after genesis the floor law holds for the time since genesis; up to genesis the result is slot 0 `Propose` |
| `Clock.FromElapsedInvertsStart` | clock/src/lib.rs:249-290 | `from_duration` inverts the start-time function on every tick of every slot |
| `Clock.DelayIsRemainder` | clock/src/lib.rs:229-247 | `delay` succeeds if and only if the time lies in one of the first 2^32 slots; then start plus delay is the time, and the delay is below one tick duration |
| `Clock.DelaySinceStart` | clock/src/lib.rs:229-247 | the delay of any tick, however old, is the time since its start, zero before it, and an error exactly from slot 2^32 on |
| `Clock.DelayFailsAtSlot` | clock/src/lib.rs:240-241 | at the start of slot 2^32 the tick is found and its delay is an error |
| `Clock.FloorLawNeedsEvenTicks` | clock/src/lib.rs:249-290 | the floor law holds throughout a slot if and only if its tick count divides its duration in milliseconds |
| `Clock.FloorLawFailsAt100Ms` | clock/src/lib.rs:249-290 | with slots of 100 ms, 96 ms after genesis the first tick of the slot is found, although it is long over |
| `TickStream.LagBounds` | clock/src/lib.rs:540-555 | the lag of a search that steps into the next slot is less than a tick, and zero if and only if the tick count stays the same |
| `TickStream.Search` | clock/src/lib.rs:500-532 | the two search loops terminate, with the distance of the found tick from the start of the slot and every earlier candidate ruled out; they fail only in the last slot, when no representable tick is left |
| `TickStream.NextTickWithInstant` | clock/src/lib.rs:448-538 | returns the least (interval) tick not before the time searched, which is now plus the lag if the search steps over the fork and now otherwise, with the remaining time; it fails exactly if there is no such tick or its instant cannot be represented; exact if and only if it does not step over the fork; up to genesis it is slot 0 `Propose` |
| `TickStream.EarlyExactlyWhen` | clock/src/lib.rs:500-532 | the search is early exactly when every candidate of the slot has started and the next slot has more ticks, by the difference of the tick durations |
| `TickStream.SearchStepsOverFork` | clock/src/lib.rs:507-526 | with 12-second slots, Gloas in slot 1 and 11.5 s elapsed, the result is the start of slot 1 in 250 ms, although it is 500 ms away |
| `TickStream.SearchResultIsUnique` | clock/src/lib.rs:448-538 | the time determines the tick and the remaining time |
| `TickStream.SearchAtFork` | clock/src/lib.rs:448-538 | the call at 11.5 s returns slot 1 `Propose` 250 ms from now, or an overflow if that instant cannot be represented |
| `TickStream.UntilEmitted` | clock/src/lib.rs:402-421 | the inner loop takes at most three steps and yields the first tick of interest with its start and its end as the next deadline; it fails exactly if that is the last tick of all or its end cannot be represented, with the error of each |
| `TickStream.BlockedExactlyWhen` | clock/src/lib.rs:405-412 | a tick can be emitted if and only if it is not the last tick of the last slot and its end is a representable instant; the error otherwise |
| `TickStream.EmissionMeans` | clock/src/lib.rs:402-421 | what a poll yields, in terms of the first emitted tick from the pending one on |
| `TickStream.Stream.Poll` | clock/src/lib.rs:398-421 | a poll yields the next emitted tick at its start time and moves the deadline to its end; it fails exactly if that tick is the last of all or ends too late, and then changes nothing |
| `TickStream.Ticks` | clock/src/lib.rs:380-421 | over any number of polls the ticks are exactly the emitted ticks from the time searched on, ascending, none left out, each at its scheduled time less what the search was early by; the stream fails only if the search does or the next emitted tick is the last of all or its end cannot be represented |
| `Doppelganger.Protection.FilterInactive` | doppelganger_protection/src/doppelganger_protection.rs:81-90 | exactly the requested keys that are not active are kept |
| `Doppelganger.Protection.Add` | doppelganger_protection/src/doppelganger_protection.rs:92-115 | key by key: at the genesis slot the keys become active at once and no stamp changes; later each key that is not tracked is stamped with the slot |
| `Doppelganger.Protection.Classify` | doppelganger_protection/src/doppelganger_protection.rs:128-159 | key by key: a tracked key is checked if and only if it has an index, restamped if and only if index and stamp do not agree, removed if and only if it is not held; the reverse map covers exactly the checked indices |
| `Doppelganger.Protection.ApplyRestamps` | doppelganger_protection/src/doppelganger_protection.rs:161-170 | key by key: restamped keys are overwritten and removed keys dropped, in the snapshot current at the update |
| `Doppelganger.Protection.SelectToActivate` | doppelganger_protection/src/doppelganger_protection.rs:36-61 | a key is selected if and only if it is checked, tracked and stamped at least two epochs before, in the snapshot current at the load |
| `Doppelganger.Protection.ActivateSelected` | doppelganger_protection/src/doppelganger_protection.rs:62-73 | a key is active afterwards if and only if it was or is selected, and stays tracked, with its stamp, if and only if it is not selected |
| `Doppelganger.LiveKeys` | doppelganger_protection/src/doppelganger_protection.rs:198-226 | lists the keys of exactly the live reports of checked indices, in the order of the response; none if and only if the call may go on |
| `DoppelgangerRuns.RunsAreSafe` | doppelganger_protection/src/doppelganger_protection.rs:36-226 | in every reachable state of every interleaving, each key activated other than at genesis was activated justly (index resolved, no queried epoch reported it live, two epochs since its stamp, every load since the stamp resolved it), and keys added during a call keep the stamp of their addition |
| `DoppelgangerRuns.StepKeepsInv` | doppelganger_protection/src/doppelganger_protection.rs:76-226 | every load, update and query result keeps the safety invariant |
| `DoppelgangerRuns.ActivateKeepsInv` | doppelganger_protection/src/doppelganger_protection.rs:62-73 | the activation update keeps the invariant although additions ran since the selection |
| `DoppelgangerRuns.ActiveNeverShrinks` | doppelganger_protection/src/doppelganger_protection.rs:62-115 | over every stretch of a run the active set only grows |
| `DoppelgangerActivation.StepByKey` | doppelganger_protection/src/doppelganger_protection.rs:62-170 | what every step does to one key: only applied additions, restamping and activation change it |
| `DoppelgangerActivation.LoadByKey` | doppelganger_protection/src/doppelganger_protection.rs:128-159 | what a call will do with a key, by its index and its stamp at the load |
| `DoppelgangerActivation.SelectByKey` | doppelganger_protection/src/doppelganger_protection.rs:36-61 | a key is selected if and only if the call checked it and its stamp is at least two epochs old |
| `DoppelgangerActivation.QueriesOfCall` | doppelganger_protection/src/doppelganger_protection.rs:171-196 | the previous epoch is asked about first, except in the first epoch, and then the current one |
| `DoppelgangerActivation.FailsExactlyWhen` | doppelganger_protection/src/doppelganger_protection.rs:198-226 | a response stops the call if and only if the query failed or it reports the index of a checked key live |
| `DoppelgangerActivation.WillActivateStep` | doppelganger_protection/src/doppelganger_protection.rs:36-226 | no step but the failure of the call takes an eligible key off the way to its activation |
| `DoppelgangerActivation.CallActivates` | doppelganger_protection/src/doppelganger_protection.rs:36-226 | in every interleaving a call that loads a key with its index, stamped at least two epochs before, fails or makes the key active and no longer tracked |
| `DoppelgangerActivation.CallCanGoOn` | doppelganger_protection/src/doppelganger_protection.rs:117-196 | such a call always has a next step that does not fail |
| `DoppelgangerActivation.GenesisAdditionActivates` | doppelganger_protection/src/doppelganger_protection.rs:92-99 | in every interleaving the keys of an addition applied at the genesis slot are active from then on |
| `DoppelgangerActivation.AdditionIsPending` | doppelganger_protection/src/doppelganger_protection.rs:81-90 | an addition waits with exactly the requested keys that are not active; without any it is dropped |
| `DoppelgangerHistory.PendingByStep` | doppelganger_protection/src/doppelganger_protection.rs:81-115 | loading an addition appends at most one pending entry, applying one removes exactly that one, and no other step touches them |
| `DoppelgangerHistory.AdditionsAreConserved` | doppelganger_protection/src/doppelganger_protection.rs:81-115 | in every run what was loaded is what was applied together with what is pending, each as often |
| `DoppelgangerHistory.FateOfAddition` | doppelganger_protection/src/doppelganger_protection.rs:81-115 | in every run an addition with inactive keys can be applied until it is, and right after that each of its keys is active (genesis slot) or tracked |
| `DoppelgangerHistory.ActiveHasReason` | doppelganger_protection/src/doppelganger_protection.rs:36-115 | in every run an active key became so at one step, which applied an addition of the genesis slot or ended a detect call |
| `DoppelgangerHistory.StampIsSlot` | doppelganger_protection/src/doppelganger_protection.rs:103-170 | a stamp is the slot of the addition, or of the detect call, that gave it |
| `DoppelgangerHistory.ActivationIsJustified` | doppelganger_protection/src/doppelganger_protection.rs:36-226 | in every run, by its steps alone: a call that activates a key loaded its index, was told that it is not live in the current and (after the first epoch) the previous epoch, came two epochs after the stamp, and every call that loaded since the stamp had the index |
| `DoppelgangerHistory.AdditionKeepsStamp` | doppelganger_protection/src/doppelganger_protection.rs:62-170 | in every run a key that a call did not load, added while it runs, keeps the slot of the addition as its stamp until the call is over |
| `DoppelgangerExecution.Execution.Receive` | doppelganger_protection/src/doppelganger_protection.rs:198-226 | a response lets the call go on if and only if the query succeeded and no checked index is live in it |
| `DoppelgangerExecution.Execution.Perform` | doppelganger_protection/src/doppelganger_protection.rs:76-226 | whatever the object does with the shared cell, the pending additions and the local variables of the call is the corresponding step of a run |
| `DoppelgangerExecution.Run` | doppelganger_protection/src/doppelganger_protection.rs:76-226 | running the object through any interleaving ends in the snapshot of the run, which is safe |
| `AttestationVerifier.ProcessBatch` | attestation_verifier/src/attestation_verifier.rs:317-378 | the messages of a task contain exactly its deliveries: one batch of rejected items if there are any, then one batch of accepted items if the signatures are valid, or one message per accepted item if they are not |
| `AttestationVerifier.SendSingly` | attestation_verifier/src/attestation_verifier.rs:523-568 | after a failed batch every accepted item is sent once in a message of its own, in order |
| `AttestationVerifier.DeliversEachOnce` | attestation_verifier/src/attestation_verifier.rs:523-568 | each item of a task is delivered exactly once, along the route its prevalidation and the batch verification call for |
| `AttestationVerifier.FilteredInOrder` | attestation_verifier/src/attestation_verifier.rs:317-378 | the partition by prevalidation keeps the order of the items on both sides |
| `AttestationVerifier.RejectedComeFirst` | attestation_verifier/src/attestation_verifier.rs:317-378 | what prevalidation did not accept is delivered before everything else |
| `AttestationVerifier.SpawnTakesLast` | attestation_verifier/src/attestation_verifier.rs:179-257 | a task starts if and only if one may and there is work; it gets the last full batch, or all there is, and the rest stays in order |
| `AttestationVerifier.BatchesOfLanes` | attestation_verifier/src/attestation_verifier.rs:179-257 | an idle lane of single items starts one task on the last 64 items or all there are, the batch lane on everything; a busy lane starts none |
| `AttestationVerifier.ReceiveAppends` | attestation_verifier/src/attestation_verifier.rs:139-171 | items are received at the end of the queue, and only a started task shortens it |
| `AttestationVerifier.ReceiveKeepsInv` | attestation_verifier/src/attestation_verifier.rs:139-171 | receiving keeps conservation and the schedule |
| `AttestationVerifier.FinishKeepsInv` | attestation_verifier/src/attestation_verifier.rs:317-378 | a finished task moves its items to the delivered log without loss |
| `AttestationVerifier.FinishMoves` | attestation_verifier/src/attestation_verifier.rs:317-378 | a finished task leaves the others in order, and each of its items once at the end of the log, by the route its checks call for |
| `AttestationVerifier.AcknowledgeKeepsInv` | attestation_verifier/src/attestation_verifier.rs:111-138 | handling `Finished` never saturates the counter and keeps conservation and the schedule |
| `AttestationVerifier.LaneRunsKeepInv` | attestation_verifier/src/attestation_verifier.rs:103-257 | in every reachable state every received item is queued, in one running task or delivered, exactly once; the counter equals the unacknowledged tasks and never exceeds its maximum; a non-empty queue means the maximum is reached; single-item batches hold at most 64 |
| `AttestationVerifier.AcknowledgeShortensQueue` | attestation_verifier/src/attestation_verifier.rs:179-257 | each acknowledgement takes a full batch off the queue, or empties it |
| `AttestationVerifier.LaneDrains` | attestation_verifier/src/attestation_verifier.rs:103-257 | once input stops, a run has at most as many steps as work was outstanding |
| `AttestationVerifier.StuckMeansDelivered` | attestation_verifier/src/attestation_verifier.rs:103-257 | when no step is left the queue is empty and the delivered items are the received ones |
| `AttestationVerifier.Verifier.OnAggregate` | attestation_verifier/src/attestation_verifier.rs:141-152 | the aggregate lane changes by one receive step, the others not at all |
| `AttestationVerifier.Verifier.OnAttestation` | attestation_verifier/src/attestation_verifier.rs:153-159 | the attestation lane changes by one receive step, the others not at all |
| `AttestationVerifier.Verifier.OnAttestationBatch` | attestation_verifier/src/attestation_verifier.rs:160-172 | the batch lane receives the whole batch, the others do not change |
| `AttestationVerifier.Verifier.OnAggregatesTaskFinished` | attestation_verifier/src/attestation_verifier.rs:111-119 | the aggregate lane makes one acknowledge step |
| `AttestationVerifier.Verifier.OnAttestationsTaskFinished` | attestation_verifier/src/attestation_verifier.rs:120-128 | the attestation lane makes one acknowledge step |
| `AttestationVerifier.Verifier.OnBatchAttestationsTaskFinished` | attestation_verifier/src/attestation_verifier.rs:129-137 | the batch lane makes one acknowledge step |
| `AttestationVerifier.Verifier.OnStop` | attestation_verifier/src/attestation_verifier.rs:172 | ends the loop and leaves every lane as it is |
| `AttestationVerifier.Verifier.RunAggregatesTask` | attestation_verifier/src/attestation_verifier.rs:317-378 | what a running aggregate task sends is exactly what its lane logs as delivered, in the messages that `ProcessBatch` states |
| `AttestationVerifier.Verifier.RunAttestationsTask` | attestation_verifier/src/attestation_verifier.rs:523-568 | what a running attestation task sends is exactly what its lane logs as delivered, in the messages that `ProcessBatch` states |
| `AttestationVerifier.Verifier.RunBatchAttestationsTask` | attestation_verifier/src/attestation_verifier.rs:523-568 | what a running batch task sends is exactly what its lane logs as delivered, in the messages that `ProcessBatch` states |
| `AttestationVerifier.Verifier.SpawnVerifyAggregateBatchTask` | attestation_verifier/src/attestation_verifier.rs:179-200 | refines the spawn step with batches of at most 64 |
| `AttestationVerifier.Verifier.SpawnVerifyAttestationBatchTask` | attestation_verifier/src/attestation_verifier.rs:202-228 | refines the spawn step with batches of at most 64 |
| `AttestationVerifier.Verifier.SpawnVerifyBatchAttestationTask` | attestation_verifier/src/attestation_verifier.rs:230-257 | refines the spawn step that takes the whole queue |
| `ElectraAggregation.CommitteeIndices` | helper_functions/src/misc.rs:837-844 | the set positions, strictly ascending |
| `ElectraAggregation.Convert` | operation_pools/src/attestation_agg_pool/conversion.rs:122-142 | succeeds exactly when the bits fit, with the committee index of the input as the only committee |
| `ElectraAggregation.GroupStarts` | block_producer/src/block_producer.rs:1160-1198 | the positions without an earlier input of the same data, ascending |
| `ElectraAggregation.GroupMembers` | block_producer/src/block_producer.rs:1160-1198 | the positions with the given data and no earlier input of the same data and committee, ascending |
| `ElectraAggregation.GroupByData` | block_producer/src/block_producer.rs:1160-1198 | the loop yields the groups in first-seen order, each with exactly its non-repeated inputs |
| `ElectraAggregation.GroupsAreDistinct` | block_producer/src/block_producer.rs:1160-1198 | different groups have different data |
| `ElectraAggregation.DataHasGroup` | block_producer/src/block_producer.rs:1160-1198 | the data of every input has a group |
| `OnChainAggregates.SortIsStable` | block_producer/src/block_producer.rs:1333-1337 | sorting orders by first committee, permutes, and keeps the order of equal keys |
| `OnChainAggregates.SortKeepsTotals` | block_producer/src/block_producer.rs:1333-1342 | sorting changes neither the number of bits nor the signatures, so the length error depends on the inputs only |
| `OnChainAggregates.Concatenate` | ssz/src/bit_list.rs:229-249 | the concatenation of all aggregation bits |
| `OnChainAggregates.SetCommitteeBits` | block_producer/src/block_producer.rs:1353-1357 | sets exactly the bits of the added committees |
| `OnChainAggregates.MergeCommitteesAndSignatures` | block_producer/src/block_producer.rs:1350-1360 | fails exactly on an undecodable signature; otherwise unites the committee bits and sums the signatures |
| `OnChainAggregates.ComputeOnChainAggregate` | block_producer/src/block_producer.rs:1330-1368 | succeeds if and only if there are attestations, their bits together fit, and all signatures decompress; the error is that of the first check that fails, and there is none about missing attestations unless the list is empty |
| `OnChainAggregates.MergesExactlyWhen` | block_producer/src/block_producer.rs:1330-1368 | the condition of success and of each error, from the attestations alone |
| `OnChainAggregates.MergedHasAll` | block_producer/src/block_producer.rs:1330-1368 | the aggregate has all bits, exactly the committees and exactly the signatures of its attestations, and the data of one of them |
| `AggregateDecoding.GetAttestingIndices` | helper_functions/src/electra.rs:89-131 | one pass over the bits gives every committee its share, with each error condition; who that is and when it fails is stated by the bits in `AttestingBits` |
| `AttestingBits.AttestersHaveBits` | helper_functions/src/electra.rs:107-111 | the attesters of a committee are exactly its members with a set bit, in the order of the committee |
| `AttestingBits.DecodesExactlyWhen` | helper_functions/src/electra.rs:104-128 | decoding succeeds if and only if every named committee exists and has a set bit and the bits are as many as the members; otherwise the first committee that fails, or the count, decides the error |
| `AttestingBits.DecodedHaveBits` | helper_functions/src/electra.rs:104-131 | the result lists exactly the members with a set bit in order, the members of the named committees counted one committee after another |
| `AttestingBits.NamedExactlyWhen` | helper_functions/src/electra.rs:104-131 | a validator is in the result if and only if it is a member of a named committee and its bit, counted from the sizes of the committees before, is set |
| `AttestingBits.AttestersOfVote` | helper_functions/src/electra.rs:107-111 | the attesters of several attestations are exactly the validators whose bit is set in one of them |
| `AggregateDecoding.AggregateCommittees` | block_producer/src/block_producer.rs:1330-1368 | the set committee bits in ascending order are the committees of the sorted inputs |
| `AggregateDecoding.CutsReturnInputs` | block_producer/src/block_producer.rs:1330-1368 | walking the set committee bits and cutting the bits at prefix sums of committee lengths returns each input's bits |
| `AggregateDecoding.DecodeOfInput` | helper_functions/src/electra.rs:89-131 | a one-committee attestation decodes exactly when it has an attester, to its attesters |
| `AggregateDecoding.MergingKeepsVotes` | block_producer/src/block_producer.rs:1330-1368 | the aggregate decodes exactly when all inputs do, to the same multiset of validators |
| `BlockAttestations.GroupIsMergeable` | block_producer/src/block_producer.rs:1160-1198 | a group has one data and no committee twice |
| `BlockAttestations.GroupedUnlessRepeated` | block_producer/src/block_producer.rs:1183-1197 | an input is in a group exactly when no earlier input had the same data and committee, and only in the group of its data |
| `BlockAttestations.PackAttestations` | block_producer/src/block_producer.rs:1160-1215 | the groups that have attestations, fit and have valid signatures are in the block, in order, merged, up to the limit, and nothing else is |
| `BlockAttestations.PackedMergesGroups` | block_producer/src/block_producer.rs:1200-1212 | each packed aggregate merges one group, in group order; a group is packed if and only if it has attestations, its bits fit and its signatures decompress |
| `BlockAttestations.PackedGroupKeepsVotes` | block_producer/src/block_producer.rs:1160-1368 | from pool to aggregate: same data, decodable exactly when all members are, same attesters |
| `BlockAttestations.ConvertedInOrder` | block_producer/src/block_producer.rs:1168-1182 | exactly the pool attestations whose bits fit are converted, in order, with bits, data, signature and committee unchanged |
| `BlockAttestations.BlockVotes` | block_producer/src/block_producer.rs:1160-1368 | every attestation of the block, read with the committees of its own data, decodes exactly when its group does, to the attesters of exactly the entries with its data that were the first of their committee, and no two have the same data |
| `BlockAttestations.VotersOfBlock` | block_producer/src/block_producer.rs:1160-1368 | if all entries fit the committees of their data, every attestation of the block decodes if and only if the entries with its data that were the first of their committee do, and then a validator votes in it if and only if its bit is set in one of them |
| `ByteOrder.LessIsTotal` | database/src/lib.rs:243 | byte order of keys is a strict total order |
| `ByteOrder.PrefixInterval` | database/src/lib.rs:299-305 | everything between a prefix and one of its extensions extends it too |
| `OrderedMap.ListingIsUnique` | database/src/lib.rs:424-477 | a map has one ascending listing |
| `OrderedMap.Next` | database/src/lib.rs:713-740 | the pair with the least key at or after the given one, or none if there is no such key |
| `OrderedMap.Prev` | database/src/lib.rs:662-699 | the pair with the greatest key at or before the given one, or none if there is no such key |
| `OrderedMap.PrefixIsFoundFirst` | database/src/lib.rs:299-305 | some key has the prefix if and only if the first key from the prefix on has it |
| `Database.Cursor.DeleteBelow` | database/src/lib.rs:236-250 | the loop deletes from the cursor exactly up to the first key that is not below the end |
| `Database.Cursor.Rest` | database/src/lib.rs:440-446 | iterating a cursor forwards yields everything from its position on |
| `Database.Cursor.RestBackwards` | database/src/lib.rs:558-573 | iterating a cursor backwards yields everything up to its position, reversed |
| `Database.Persistent.Delete` | database/src/lib.rs:161-177 | removes the key and keeps the entries sorted |
| `Database.Persistent.DeleteBatch` | database/src/lib.rs:189-208 | removes all given keys |
| `Database.Persistent.DeleteRange` | database/src/lib.rs:225-251 | removes exactly the keys from start on and below end, for any range |
| `Database.Persistent.Get` | database/src/lib.rs:315-335 | the value stored last for the key |
| `Database.Persistent.PutBatch` | database/src/lib.rs:618-648 | of the pairs with one key the last is stored; an empty batch does nothing |
| `Database.Persistent.NextRaw` | database/src/lib.rs:718-730 | agrees with `OrderedMap.Next` |
| `Database.Persistent.Prev` | database/src/lib.rs:667-691 | lower bound, step back and last together agree with `OrderedMap.Prev` |
| `Database.Persistent.IteratorAscending` | database/src/lib.rs:424-448 | the ascending listing of all keys from the start on |
| `Database.Persistent.IteratorDescending` | database/src/lib.rs:541-575 | the descending listing of all keys up to the end |
| `Database.Persistent.ContainsPrefixedKey` | database/src/lib.rs:299-305 | true if and only if some key has the prefix |
| `Database.InMemory.DeleteRange` | database/src/lib.rs:252-270 | panics if and only if the range is inverted and its end is stored; otherwise removes exactly the keys from start on and below end |
| `Database.InMemory.IteratorAscending` | database/src/lib.rs:449-476 | `expect_none` cannot fail; the ascending listing of all keys from the start on |
| `Database.InMemory.IteratorDescending` | database/src/lib.rs:576-603 | `expect_none` cannot fail; the descending listing of all keys up to the end |
| `Database.InMemory.DeleteBatch` | database/src/lib.rs:209-215 | removes all given keys |
| `Database.InMemory.PutBatch` | database/src/lib.rs:649-657 | of the pairs with one key the last is stored; an empty batch does nothing |
| `Database.LastPairWins` | database/src/lib.rs:618-657 | a batch stores the last pair with each of its keys and leaves every other key as it was |
| `Database.InMemory.Prev` | database/src/lib.rs:692-699 | agrees with `OrderedMap.Prev` |
| `Database.InMemory.NextRaw` | database/src/lib.rs:731-740 | agrees with `OrderedMap.Next` |
| `DatabaseRuns.OnPersistent` | database/src/lib.rs:159-766 | every operation has the answer and effect given for the abstract map |
| `DatabaseRuns.OnInMemory` | database/src/lib.rs:159-766 | the same, except that it panics on an inverted range at a stored key and from then on |
| `DatabaseRuns.RunBoth` | database/src/lib.rs:159-766 | for every sequence of operations the two backends give equal answers if and only if no range deletion is inverted at a stored key, and then end with equal contents |
| `DatabaseRuns.StoredExactlyWhen` | database/src/lib.rs:159-665 | after any run a value is stored under a key if and only if some batch of the run stored it, as the last pair of the batch with that key, and no later operation of the run writes or deletes the key |
| `DatabaseRuns.QueryMeans` | database/src/lib.rs:307-740 | the answers to `get`, `prev` and `next`: the stored value, the last pair up to the key, the first pair from the key on, or nothing exactly when there is none |
| `DatabaseRuns.PrefixQueryMeans` | database/src/lib.rs:299-305 | a prefixed key is found if and only if some stored key begins with the prefix |
| `DatabaseRuns.IterationMeans` | database/src/lib.rs:414-603 | an ascending iteration gives each pair from the key on, a descending one each pair down from the key, once and in strict order |
| `DatabaseRuns.InvertedRangeDiffers` | database/src/lib.rs:220-274 | a stored key and an inverted range that ends at it are such a sequence |
| `BlockKeys.BlockKeyOrder` | eth1/src/eth1_cache.rs:107-109 | for all `u64`, keys are equal exactly for equal numbers and ordered like the numbers |
| `BlockKeys.DigitsOfKey` | eth1/src/eth1_cache.rs:107-109 | a key is `bk` and the 20 decimal digits of the number, zero-padded, the most significant first |
| `BlockKeys.DepositTreeKeyIsLast` | eth1/src/eth1_cache.rs:11-12 | the deposit tree key comes after every block key and is not taken for one |
| `Eth1Blocks.LatestIsPrevOfMax` | eth1/src/eth1_cache.rs:82-89 | searching back from the greatest block key finds the block with the greatest number, if there is one |
| `Eth1Blocks.AscendingFromBlockKey` | eth1/src/eth1_cache.rs:59-76 | the entries from a block key on are all blocks from that number on, ascending, then at most the deposit tree |
| `Eth1Blocks.HoldsPutBlocks` | eth1/src/eth1_cache.rs:91-100 | storing blocks changes the block map and nothing else |
| `Eth1Blocks.LastBlockWins` | eth1/src/eth1_cache.rs:91-100 | of the blocks with one number the last is stored |
| `Eth1Cache.Eth1Cache.constructor` | eth1/src/eth1_cache.rs:20-34 | a restart brings back the persisted tree; without one the default tree, or an empty one, is persisted |
| `Eth1Cache.Eth1Cache.GetLatestBlock` | eth1/src/eth1_cache.rs:82-89 | the stored block with the greatest number, or none if there are no blocks |
| `Eth1Cache.Eth1Cache.GetBlocksFrom` | eth1/src/eth1_cache.rs:59-76 | the first `max` stored blocks numbered at least `from`, ascending |
| `Eth1Cache.Eth1Cache.PutBlocks` | eth1/src/eth1_cache.rs:91-100 | stores the blocks under their numbers, the last one with each number |
| `Eth1Cache.Eth1Cache.AddDeposits` | eth1/src/eth1_cache.rs:36-57 | succeeds if and only if no index is missing; the tree always holds the log up to the next missing deposit; a failed call leaves the last added block number and the persisted tree alone; after a successful call the persisted tree is the one in memory |
| `Eth1Cache.Eth1Cache.PushAll` | eth1/src/eth1_cache.rs:48-52 | the loop pushes exactly the missing deposits up to the first gap |
| `Eth1Cache.NextMissingMeans` | eth1/src/eth1_cache.rs:48-52 | the events have every index up to the next missing deposit and not that one, and no event is left over if and only if there is no gap |
| `Eth1Deposits.RunDeposits` | eth1/src/eth1_cache.rs:20-57 | after any sequence of calls and restarts both trees are trees of log prefixes, with exactly the counts and block numbers that the calls determine: memory up to the next missing deposit, persisted only by complete calls, and memory set back to persisted by a restart; `trail` has both progresses after every call, and each call has taken exactly that step |
| `Eth1Deposits.AfterCallMeans` | eth1/src/eth1_cache.rs:20-57 | the step of a call: an addition appends every deposit up to the first one that the events lack, takes the block number and persists exactly when no event is left over; a restart brings back what is persisted |
| `Eth1Cache.Eth1Cache.GetDepositTree` | eth1/src/eth1_cache.rs:78-80 | the persisted tree, which is always there |
| `Eth1Downloads.BatchOutcome` | eth1/src/download_manager.rs:163-182 | a tree with all deposits before a block range gets those of the range; one that lacks an earlier deposit gets none, and the call succeeds exactly when the range has none |
| `Eth1Downloads.DownloadAndStoreDeposits` | eth1/src/download_manager.rs:134-186 | a tree on track stays so, and reaches the latest block if every request is answered; a stuck tree never gets another deposit; a connection error means that a request failed; the number returned is where the next call starts |
| `Eth1Downloads.StuckExactlyWhenSkipping` | eth1/src/download_manager.rs:135-159 | a complete tree is stuck if and only if a deposit lies after its last added block and not after the earliest one |
| `Eth1Downloads.CompleteExactlyWhen` | eth1/src/download_manager.rs:134-186 | the tree holds exactly the deposits up to its last added block if and only if no deposit was skipped at the start or nothing has been added since |
| `Eth1Downloads.RunDownloads` | eth1/src/download_manager.rs:134-186 | the same over any number of downloads, answered or not, and restarts, for the persisted tree, which is always that of a log prefix; `trail` has the progress after every call: a restart changes nothing, and a fully answered download of a tree on track ends at its latest block |
| `Eth1Downloads.FirstDepositIsSkipped` | eth1_api/src/eth1_api/http_api.rs:127-153 | a deposit in the first block with a log of the contract is skipped by a start with the empty tree |
| `Eth1Downloads.DownloadAfterFirstDeposit` | eth1/src/download_manager.rs:134-186 | one answered download then persists an empty tree as if it had the deposits up to block 1010 |
| `Eth1Stream.VerifyBlocks` | eth1/src/download_manager.rs:220-243 | true if and only if each block names the one before it as parent |
| `Eth1Stream.DownloadAndStoreBlocks` | eth1/src/download_manager.rs:60-132 | every stored block is kept, the added ones are exactly those of accepted answers with numbers from the first request up to the latest; answers in full leave no number out; a connection error is reported if and only if a request failed |
| `Eth1Stream.StartsExactlyAt` | eth1/src/download_manager.rs:60-80 | a number is at or after the start if and only if it comes after the latest stored block, or is not before the earliest one if nothing is stored, is among the last 5000, and is not 0 |
| `Eth1Stream.StartIsGreater` | eth1/src/download_manager.rs:60-80 | the start is the greater of the number after the latest stored block (or the earliest one) and the first of the last 5000 numbers, or 1 |
| `Eth1Stream.DownloadsAll` | eth1/src/download_manager.rs:89-129 | if every answer is accepted and holds its whole range, every number from the start up to the latest is stored |
| `Eth1Stream.DownloadOnlyAdds` | eth1/src/download_manager.rs:89-129 | a download from beyond the stored blocks adds exactly what its accepted answers hold, and changes nothing else |
| `Eth1Stream.DownloadIsSegment` | eth1/src/download_manager.rs:60-132 | a download is one start step and then one store step per request of an interleaved run |
| `Eth1Stream.BlockStream.Poll` | eth1/src/eth1_chain.rs:123-134 | a batch is the first 1000 blocks after the last streamed number, which moves to the end of the batch |
| `Eth1Stream.RunsStreamOnce` | eth1/src/eth1_chain.rs:117-147 | in every interleaving of downloads and polls streamed numbers ascend strictly, and every stored block above the initial position and at most the last streamed number was streamed exactly once |
| `Eth1Stream.StoreKeepsInv` | eth1/src/download_manager.rs:89-131 | new blocks come after all stored ones, so none appears behind the stream |
| `Eth1Stream.PollKeepsInv` | eth1/src/eth1_chain.rs:123-134 | a poll appends exactly the next stored blocks |
| `Eth1Stream.EmptyBatchMeansDone` | eth1/src/eth1_chain.rs:123-134 | an empty batch means that every stored block above the initial position was streamed |
| `MerkleTree.ShrIncrement` | ssz/src/merkle_tree.rs:413-419 | adding one to an index flips its trailing ones and the zero above them, and nothing else |
| `MerkleTree.AboveCutoff` | ssz/src/merkle_tree.rs:194-203 | a height is past the cutoff if and only if the end index has no node there other than the first |
| `MerkleTree.PushKeepsSiblings` | ssz/src/merkle_tree.rs:117-135 | storing the hash reached after the carry keeps the stored hashes the left siblings of the next chunk |
| `MerkleTree.Tree.Push` | ssz/src/merkle_tree.rs:117-135 | keeps the invariant, changes one stored hash and returns the node there |
| `MerkleTree.Tree.PushAndComputeRoot` | ssz/src/merkle_tree.rs:137-155 | the root of the tree over all chunks padded with zeros |
| `MerkleTree.Tree.ExtendAndConstructProofs` | ssz/src/merkle_tree.rs:168-294 | appends many chunks at once with the same result as pushing, and every proof leads from its chunk to the root with the length mixed in |
| `MerkleTree.ProofIsValid` | helper_functions/src/predicates.rs:260-277 | a branch of the siblings on the path and the length is valid for the root |
| `MerkleTree.MerkleizeChunks` | ssz/src/merkle_tree.rs:94-115 | equals the root of the padded tree |
| `MerkleTree.RootOfHalves` | ssz/src/merkle_tree.rs:94-155 | the root of one chunk is the chunk; the root of a full left half and the rest is the hash of both roots |
| `MerkleTree.PaddingIsZero` | ssz/src/merkle_tree.rs:94-155 | appending zero chunks does not change the root |
| `DepositTree.DepositTree.ValidateIndex` | deposit_tree/src/lib.rs:128-149 | accepts exactly the next index, if the tree is not full; the condition of each error |
| `DepositTree.DepositTree.Push` | deposit_tree/src/lib.rs:35-49 | appends exactly when the index is valid, and otherwise changes nothing |
| `DepositTree.DepositTree.PushAndComputeRoot` | deposit_tree/src/lib.rs:51-71 | the root of all deposits so far hashed with their number |
| `DepositTree.DepositTree.ExtendAndConstructProofs` | deposit_tree/src/lib.rs:73-126 | fails exactly on a bad range, a full tree, an unexpected start or a wrong count, with the error of the first of these; otherwise every proof is valid for the new deposit root |
| `Shuffling.RoundIsInvolution` | shuffling/src/lib.rs:195-216 | one round applied twice returns the index |
| `Shuffling.RoundByBit` | shuffling/src/lib.rs:195-216 | a round moves an index to its mirror around the pivot if and only if the bit of the hash for the higher of both positions is set |
| `Shuffling.SaturatingRoundByBit` | shuffling/src/lib.rs:195-216 | a round of the code by the hash alone, with the saturating flip written out |
| `Shuffling.ShuffledByRounds` | shuffling/src/lib.rs:195-216 | the shuffle is all rounds in ascending order: an index goes where its trail through them ends |
| `Shuffling.HasTrail` | shuffling/src/lib.rs:195-216 | every index has such a trail |
| `Shuffling.ShuffleIsInjective` | shuffling/src/lib.rs:195-216 | different indices stay different |
| `Shuffling.ShuffleSingle` | shuffling/src/lib.rs:195-216 | for every count the index goes through all rounds in ascending order, each with the saturating flip, and through those of the shuffle if no pivot saturates |
| `Shuffling.FlipSaturates` | shuffling/src/lib.rs:200-203 | the computed flip is right if and only if pivot and count together fit in 64 bits |
| `Shuffling.ExactWithoutSaturation` | shuffling/src/lib.rs:195-216 | without saturation every index goes where the shuffle sends it |
| `Shuffling.HalfRangeNeverSaturates` | shuffling/src/lib.rs:195-216 | for counts up to half of the range no seed saturates |
| `Shuffling.LargeCountsSaturate` | shuffling/src/lib.rs:195-216 | for every count above half of the range and every number of rounds there is a seed for which every index goes wrong |
| `Shuffling.WrongExactlyForLargeCounts` | shuffling/src/lib.rs:195-216 | for every number of rounds, some seed sends some index to the wrong place if and only if the count is above half of the range |
| `Shuffling.SwapAroundMirror` | shuffling/src/lib.rs:86-162 | swaps exactly the mirrored pairs whose bit is set, however the windows are split between workers |
| `Shuffling.MirrorsMakeRound` | shuffling/src/lib.rs:67-84 | the two mirrors of a round together send every index where the round does |
| `Shuffling.ShuffleSlice` | shuffling/src/lib.rs:50-84 | every position receives the element at the end of its trail through all rounds, as its index shuffled singly, and the elements are kept |
| `ExecutionRequests.DecodeOfEncode` | execution_engine/src/types.rs:1120-1127 | hexadecimal encoding decodes to itself |
| `ExecutionRequests.EncodeOfDecode` | execution_engine/src/types.rs:1204-1219 | what decodes encodes to the same string in lower case |
| `ExecutionRequests.FromSszOfToSsz` | ssz/src/shared.rs:109-140 | lists of fixed-size elements within the bound decode to themselves |
| `ExecutionRequests.ToSszOfFromSsz` | ssz/src/shared.rs:109-140 | what decodes is within the bound and encodes to the same bytes |
| `ExecutionRequests.Serialize` | execution_engine/src/types.rs:1103-1165 | prints the non-empty lists in type order, each as its prefix from 0x00 to 0x04 and its encoding |
| `ExecutionRequests.PrefixIsTypeByte` | execution_engine/src/types.rs:76-98 | the prefix of a type is its type byte in hexadecimal |
| `ExecutionRequests.PrintedTypes` | execution_engine/src/types.rs:1103-1165 | one string for each type with requests, in ascending order of the type bytes: the type byte and the list in hexadecimal |
| `ExecutionRequests.SizeOfFields` | types/src/electra/containers.rs:113-121 | the size of a request, by which lists are cut, is the sum of the sizes of its fields |
| `ExecutionRequests.EncodedAt` | execution_engine/src/types.rs:1120-1127 | two lower-case digits for each byte, the high one first |
| `ExecutionRequests.HexValueOf` | execution_engine/src/types.rs:1204-1219 | exactly the hexadecimal digits are read, in either case |
| `ExecutionRequests.ToSszAt` | ssz/src/shared.rs:109-140 | element `i` of a list is written at `i` times the element size |
| `ExecutionRequests.VisitSeq` | execution_engine/src/types.rs:1229-1303 | the loop over strings with five lists and the previous type, with every error |
| `RequestsRoundTrip.ParseOfPrint` | execution_engine/src/types.rs:1103-1318 | parsing what was printed returns the requests, for all five lists within their bounds |
| `RequestsRoundTrip.PrintOfParse` | execution_engine/src/types.rs:1103-1318 | whatever is accepted is within bounds and prints back to itself up to the case of hex letters |
| `RequestsRoundTrip.AcceptsExactly` | execution_engine/src/types.rs:1168-1318 | accepted if and only if all prefixes are known, types ascend strictly, and every body is a non-empty hexadecimal string of a whole number of requests within the bound |
| `RequestsRoundTrip.FailsExactlyWith` | execution_engine/src/types.rs:1177-1300 | the first string that is not accepted decides the error: unknown prefix, type not ascending, invalid digits, no requests, a fraction of a request, too many requests |
| `CustodyGroups.ComputeColumnsForCustodyGroup` | eip_7594/src/lib.rs:93-116 | an error exactly for an invalid group; otherwise the columns with that remainder, strictly ascending, in range |
| `CustodyGroups.GroupsPartitionColumns` | eip_7594/src/lib.rs:93-116 | no column is in two groups, and the groups cover all columns if and only if they divide them evenly |
| `PeerDas.GroupByRow` | eip_7594/src/lib.rs:248-254 | the rows that occur in ascending order, each with its entries in list order |
| `PeerDas.RowOfInOrder` | eip_7594/src/lib.rs:248-254 | the entries of a row are exactly those of the list with its index, in list order |
| `PeerDas.ConstructCellsAndKzgProofs` | eip_7594/src/lib.rs:492-515 | rows in ascending order, or an error if a row has the wrong length |
| `PeerDas.RegroupedMeans` | eip_7594/src/lib.rs:492-515 | succeeds if and only if every row has one entry per column; row `k` has the cells and proofs of the `k`th row that occurs |
| `PeerDas.RegroupOfFullMatrix` | eip_7594/src/lib.rs:537-556 | regrouping the full matrix returns the rows |
| `PeerDas.FullMatrixAt` | eip_7594/src/lib.rs:537-556 | entry `i * columns + j` is cell and proof `j` of row `i` and names both |
| `Reconstruction.RecoverMatrix` | eip_7594/src/lib.rs:243-276 | the full matrix of the rows recovered one by one, or an error if one cannot be recovered |
| `Reconstruction.RecoverRowsMeans` | eip_7594/src/lib.rs:256-276 | succeeds if and only if every row that occurs can be recovered from the column indices and cells of its entries; row `k` is the `k`th of these |
| `Reconstruction.RecoveredIsFull` | eip_7594/src/lib.rs:243-276 | from enough cells of each row that occurs, in any order, the result is the full matrix if and only if every row occurs |
| `Reconstruction.MissingRowMovesUp` | eip_7594/src/lib.rs:243-276 | if one row has no entry and the others have enough, the matrix recovered is that of the rows without it, with the later ones moved up |
| `Reconstruction.FirstRowIsLost` | eip_7594/src/lib.rs:243-276 | of two rows of any width with all cells of the second given, the result is the second as row 0 |
| `Reconstruction.GetDataColumnSidecars` | eip_7594/src/lib.rs:278-317 | sidecar `j` entry `i` is cell and proof `j` of row `i`; an error exactly when the row count is not that of the commitments |
| `Reconstruction.RowOfSidecars` | helper_functions/src/misc.rs:895-911 | a row of the matrix made of some sidecars has one entry per sidecar, in their order, with the cell and the proof of its column |
| `Reconstruction.SidecarMatrixAt` | helper_functions/src/misc.rs:894-909 | one entry per row for which a sidecar has a cell and a proof |
| `Reconstruction.Reconstruct` | operation_pools/src/blob_reconstruction_pool/tasks.rs:66-107 | nothing below half of the columns; otherwise all sidecars of the recovered rows, sidecar `j` with cell and proof `j` of each, cells without a proof being dropped |
| `Reconstruction.ReconstructFromHalf` | operation_pools/src/blob_reconstruction_pool/tasks.rs:66-107 | reconstruction from any half of a block's sidecars, in any order, returns all of its sidecars, sidecar `j` with cell and proof `j` of each row |
| `BuilderApi.SumOfGaps` | builder_api/src/api.rs:130-139 | the sum over neighbouring blocks is the number of empty slots between the start slot and the head |
| `BuilderApi.CanUseBuilderApi` | builder_api/src/api.rs:104-146 | passes if and only if checks are off or both gaps, counted as empty slots, are within their limits; each error carries its count |
| `BuilderApi.GapsBySlot` | builder_api/src/api.rs:104-146 | the gaps in terms of the slot: the empty slots before it since the head, and those since the head or the rolling epoch, whichever began earlier |
| `BuilderApi.GapsWithHeadInPast` | builder_api/src/api.rs:104-146 | with the head not after the previous slot, the rolling gap counts the empty slots from the earlier of start and head up to the previous slot, and includes the trailing gap |

## Left out

- Clock.FromElapsedIsFloor: requires slots that divide evenly into 12 and 16 ticks, as both presets do; `Clock.FloorLawNeedsEvenTicks` shows that the law fails otherwise.
- TickStream.NextTickWithInstant: requires slots of whole seconds and a system time whose seconds fit in 64 bits; durations are otherwise unbounded.
- TickStream.Ticks: sleeping is exact, as in a paused clock; how late the operating system wakes the stream is not modelled.
- DoppelgangerRuns.RunsAreSafe: detect calls do not overlap.
- DoppelgangerRuns.ActiveNeverShrinks: says nothing about keys that are re-added while a running call has already marked them removed.
- AttestationVerifier.LaneRunsKeepInv: the three lanes run independently; metrics, health checks and the order of messages between lanes are not modelled.
- OnChainAggregates.ComputeOnChainAggregate: a signature is opaque; aggregation is the multiset of aggregated signatures.
- AggregateDecoding.MergingKeepsVotes: committees of the slot are given; how they are computed from the state is not modelled.
- Database.Persistent.DeleteRange: libmdbx is a sorted sequence with a cursor after whose deletion `next` yields the successor; I/O errors and restarts after them are not modelled.
- DatabaseRuns.RunBoth: iterators are collected at once, so reads that outlive later writes are not modelled; values are stored as given, without compression.
- Eth1Cache.Eth1Cache.AddDeposits: all events come from one deposit log.
- Eth1Downloads.DownloadAndStoreDeposits: the log has at most 2^32 deposits in block order, as the contract enforces, the API answers from it, and block numbers stay below the greatest `u64`; a tree that is ahead of its last added block is not considered.
- Eth1Stream.DownloadAndStoreBlocks: block numbers stay below the greatest `u64`, and the API answers inside the requested range.
- MerkleTree.Tree.ExtendAndConstructProofs: trees are less than 64 deep, and the hash is any function.
- Shuffling.ShuffleSlice: worker threads are run one after another on their disjoint parts.
- Reconstruction.RecoveredIsFull: per-row recovery by the KZG library is assumed correct; recovery jobs run one after another.
- BuilderApi.CanUseBuilderApi: the listed blocks are strictly descending, as they come from one chain.
- `prepare_proposer_slashings` and `select_weighted_bid`: partitions and filters that would only add easy members.
- Progressive Merkle trees, packing of small SSZ values, and variable-size SSZ lists.
- `get_custody_groups`, whose termination depends on hash outputs.
- Fork choice, state transition, networking, validator duties, slashing protection and its database, HTTP and Engine API calls.
