# Verified models of aptos-core components

Dafny models of five parts of aptos-core, with proofs of what they guarantee. `dafny verify dfyconfig.toml` checks the project.

| files | what they model |
|---|---|
| `Prelude.dfy`, `Bls.dfy` | results and options, ordered iteration, the signature scheme |
| `Validators.dfy`, `Quorums.dfy`, `ValidatorSets.dfy` | weighted validator sets, quorums, signer masks, conversion of the on-chain set |
| `AggregationSpec.dfy`, `Aggregation.dfy`, `AggregationRuns.dfy` | optimistic signature aggregation: over values, as objects with shared status flags, and runs of these objects |
| `Ledger.dfy`, `EpochChange.dfy`, `TrustedStates.dfy`, `LightClientSafety.dfy`, `LightClientExample.dfy` | ledger infos, waypoints, epoch-change proofs, the light client's ratchet, its safety, and a small chain that meets all assumptions |
| `WriteSets.dfy`, `Bracketings.dfy` | write sets and squashing, and when the order of squashing does not matter |
| `FloydSampling.dfy`, `RepeatVecs.dfy` | sampling without replacement, and the run-length vector |
| `ReplayTasks.dfy` | cutting a version range into replay tasks |
| `ModuleCaches.dfy` | the transaction validator's module cache |

## Main results

- **Light client.** Against every sequence of responses from untrusted servers, a client started from a genuine epoch waypoint always holds the canonical validator set of its epoch and a waypoint on a canonical ledger info of that epoch or the one that opens it; version and epoch never go down; two clients in the same epoch agree. Genuine proofs are accepted, however far back they begin, and every response gets its outcome, refusals included; a success vouches for the target.
- **Aggregation.** Any aggregate returned passes `verify_multi_signatures`, also from the fallback that does not check it again. A quorum of valid signatures always succeeds whatever is mixed in. Over any run on one aggregator the slow path is taken at most once per validator not suspected at the start, and a validator with only valid signatures is never suspected; both hold of the objects too, because every sequence of requests to them is a run of the value-level machine.
- **Quorums and masks.** The quorum is more than two thirds of the power, so accepted signer sets share more than a third and honest validators with more than two thirds reach it alone; aggregation's mask reads back as exactly the voters in all three decoders.
- **Write sets.** Squashing preserves the effect of running; with uniform metadata every bracketing of a runnable sequence succeeds with one and the same result. For any metadata there is an exact condition, to be read off each key's ops, for every bracketing to succeed, and one for all of them to agree.
- **Sampling.** Each k-element subset of [0, max) is picked on exactly k! of the max!/(max-k)! vectors that the sources of a call can draw.
- **Run-length vector.** Batch deletion refines deletion of positions from the plain sequence.
- **Replay tasks.** Which versions the tasks cover is given in closed form: what is not skipped, up to the short remainders of the stretches between skip ranges. The loop ends exactly under a stated condition, which disjoint non-empty ranges in any order meet.
- **Module cache.** After any interleaving of snapshot changes, resets and lookups, a lookup returns the code of the current snapshot.

## Assumptions

- The signature scheme is a record of functions. `Bls.Complete` says that valid parts have a valid aggregate; the converse is not assumed. Aggregation fails on an empty list only, and does not depend on order.
- Light client: the canonical history is consistent (`LightClientSafety.Consistent`), every quorum has an honest member, an accepted multi-signature carries the signatures of the honest validators in its mask, honest validators sign only canonical ledger infos, and no other fields hash like those of a canonical ledger info. `LightClientExample` shows the assumptions to be satisfiable together, on a chain where the client does move.
- Validator sets have distinct addresses, the default quorum and at most 65535 members (`Validators.WellFormed`). The `as u16` casts are modelled as truncation.
- The hash of module bytes has no collisions.
- Addresses and state keys are numbers in the order in which the ordered maps iterate over them.
- A status cell belongs to one author's signature (`AggregationRuns.Register`), as it does when signatures are copied whole. What the filter does without that is stated as well (`Aggregation.Filtered`).
- A bit vector is its number of buckets and the set of its ones, eight to a bucket; the crate that implements it is not part of this model.
- The equality of two verifiers ignores the pessimistic set and the feature flag, so the comparable part is a value (`ValidatorVerifier`) and the rest an object (`SharedVerifier`). The cached total and address index are computed from the validator list.

## Where the code does less than one might expect

- `EpochChange.ProofSplits`: verifying a proof in two parts agrees with verifying it whole only if the second part does not begin with a ledger info that is stale by then; `SplitNeedsFreshRest` shows that any accepted proof gives an example, by sending its first part twice.
- `LightClientSafety.WaypointProofExactly`: a client that holds an epoch waypoint accepts a genuine proof that begins earlier exactly when no ending in front of the waypoint's has the same version.
- `ReplayTasks.EndsExactly`: `create_tasks` loops forever on some skip lists, for instance on ranges that touch (`TouchingSkipsNeverEnd`); the condition is exact.
- `ReplayTasks.EarlySkipsAreMissed`: a range to skip that begins at or before the start version is ignored; the condition under which no task covers a version to be skipped is exact, and `EarlySkipIsReplayed` is an input where one does.
- `WriteSets.MixedMetadataDependsOnBracketing`: without uniform metadata the order of squashing may decide whether squashing succeeds. `Bracketings.EvaluatesExactly` says when it does not: for every key all ops carry one metadata, a creation at the end excepted. `Bracketings.AgreeExactly` says when the result does not depend on it either: the exception is then for keys present at the start only.
- `Quorums.TargetUnderflowsExactly`: the target of the non-super-majority check underflows exactly for a non-empty validator set of total power zero.

## Model

| member | source | states |
|---|---|---|
| `Validators.IndexOf` | aptos-core/types/src/validator_verifier.rs:185-203 | every address in the index points at a validator with that address, every address is in it, and of several validators with one address the last is pointed at |
| `Validators.SumVotingPower` | aptos-core/types/src/validator_verifier.rs:437-449 | the loop returns the summed power if all authors are known and the unknown-author error otherwise |
| `Validators.CollectSigners` | aptos-core/types/src/validator_verifier.rs:352-362 | addresses and keys at the set positions, or nothing if a position is out of range |
| `Validators.VerifyMultiSignatures` | aptos-core/types/src/validator_verifier.rs:346-387 | the method takes the stated checks in order with the stated errors |
| `Validators.AggregateSignatures` | aptos-core/types/src/validator_verifier.rs:317-336 | the loop yields the mask of the voters' positions and the summed signature, or the stated error |
| `Validators.AggregateSignatureAuthors` | aptos-core/types/src/validator_verifier.rs:483-494 | the addresses at the in-range positions of the mask, in order |
| `Validators.GetSignersAddresses` | aptos-core/types/src/aggregate_signature.rs:43-58 | the addresses whose position is set |
| `Quorums.AcceptedExactly` | aptos-core/types/src/validator_verifier.rs:346-387 | for distinct addresses, a multi-signature is accepted exactly when its mask fits the number of validators (cut to 16 bits), is not empty, holds a quorum, and the summed key validates the signature |
| `Quorums.RejectedExactly` | aptos-core/types/src/validator_verifier.rs:346-387 | which error a refused multi-signature gets, with the power held and asked for |
| `Quorums.CountCheckExactly` | aptos-core/types/src/validator_verifier.rs:421-434 | the voter-count check passes exactly for masks that fit; below 65536 validators these are the masks of the right size that name only validators |
| `Quorums.VerifyExactly` | aptos-core/types/src/validator_verifier.rs:256-268 | one signature is accepted exactly when it is valid under the key of the validator that answers to the address; unknown authors and invalid signatures get their own errors |
| `Quorums.QuorumExactly` | aptos-core/types/src/validator_verifier.rs:207-215 | a set of positions reaches the quorum of `new` exactly when it holds more than two thirds of the power; nobody needs no power |
| `Quorums.HonestReachQuorum` | aptos-core/types/src/validator_verifier.rs:205-215 | if faulty validators hold less than a third of the power, the others reach the quorum alone |
| `Quorums.PowerCheckExactly` | aptos-core/types/src/validator_verifier.rs:454-481 | result and error of the voting-power check, with both numbers, for any authors |
| `Quorums.PowerOfAuthorsAppend` | aptos-core/types/src/validator_verifier.rs:437-449 | power is summed over the list, so an author listed twice counts twice |
| `Quorums.PowerByAddressIsPowerByBit` | aptos-core/types/src/validator_verifier.rs:437-449 | power summed by address is power summed over set bits, nobody counted twice |
| `Quorums.AcceptedQuorumsIntersect` | aptos-core/types/src/validator_verifier.rs:207-215 | any two accepted signer sets share more than a third of the total voting power |
| `Quorums.NonSuperMajorityMeetsEveryQuorum` | aptos-core/types/src/validator_verifier.rs:454-481 | authors passing the non-super-majority check include a validator of positive power from every accepted quorum |
| `Quorums.NonSuperMajorityExactly` | aptos-core/types/src/validator_verifier.rs:468-472 | authors pass the non-super-majority check exactly when they hold a third of the power, that is when the others do not reach the quorum |
| `Quorums.TargetUnderflowsExactly` | aptos-core/types/src/validator_verifier.rs:468-472 | the subtraction underflows exactly for a non-empty set of zero total power |
| `Quorums.FaultBoundLeavesHonestSigner` | aptos-core/types/src/validator_verifier.rs:209-213 | if faulty validators hold less than a third of the power, every quorum has a validator that is not faulty |
| `Quorums.MaskForIsPositions` | aptos-core/types/src/validator_verifier.rs:321-330 | the mask built bit by bit has exactly the voters' positions and does not grow |
| `Quorums.MaskForExactly` | aptos-core/types/src/validator_verifier.rs:321-330 | for any number of validators: the mask has the positions cut to 16 bits and the buckets these and the number of validators need |
| `Quorums.SameBitExactly` | aptos-core/types/src/validator_verifier.rs:324-327 | two validators share a bit exactly when their positions are a multiple of 65536 apart |
| `Quorums.BucketsExactly` | aptos-core/types/src/validator_verifier.rs:421-427 | a mask has just enough buckets of eight bits |
| `Quorums.SetExactly` | aptos-core/types/src/validator_verifier.rs:321-330 | setting a bit adds that bit, and buckets only as needed |
| `Quorums.AggregateOutcome` | aptos-core/types/src/validator_verifier.rs:317-336 | unknown voters and no voters give their errors; otherwise the signature is the sum of all signatures |
| `Quorums.SelectExactly` | aptos-core/types/src/aggregate_signature.rs:43-58 | exactly the addresses whose position, cut to 16 bits, is set |
| `Quorums.AddressesAtExactly` | aptos-core/types/src/validator_verifier.rs:483-494 | exactly the addresses at set positions; positions that are nobody's are passed over |
| `Quorums.AggregateMaskDecodes` | aptos-core/types/src/validator_verifier.rs:317-336 | the mask of an aggregate passes the count check and all three decoders read back each voter exactly once; power by address is power of the mask |
| `ValidatorSets.FromValidatorSet` | aptos-core/types/src/validator_verifier.rs:564-588 | the conversion goes through exactly when every entry sits at its own index, and then gives the verifier of the sorted entries |
| `ValidatorSets.ConversionExactly` | aptos-core/types/src/validator_verifier.rs:566-585 | for distinct addresses it goes through exactly when the on-chain indexes are 0..n-1, and then position i holds the validator with index i |
| `ValidatorSets.EverybodyIsConverted` | aptos-core/types/src/validator_verifier.rs:564-588 | active and pending-inactive validators alike are at their on-chain index with address, key and power, and nobody else is |
| `ValidatorSets.ByIndexKeepsEach` | aptos-core/types/src/validator_verifier.rs:566-578 | of entries with one index the last is kept |
| `ValidatorSets.PendingComeLast` | aptos-core/types/src/on_chain_config/validator_set.rs:58-62 | pending-inactive validators come after the active ones |
| `ValidatorSets.ConvertedIsWellFormed` | aptos-core/types/src/validator_verifier.rs:579-586 | no validator is lost or changed, and the result has distinct addresses and the default quorum |
| `AggregationSpec.AdmitExactly` | aptos-core/types/src/validator_verifier.rs:270-286 | when admission checks a signature, when it succeeds, and when it raises the flag |
| `AggregationSpec.ValidExactly` | aptos-core/types/src/validator_verifier.rs:256-268 | validity, in which the results about aggregation are stated, is validity under the key of the validator that answers to the address |
| `AggregationSpec.ValidVotesAccepted` | aptos-core/types/src/validator_verifier.rs:317-387 | votes that are each valid and hold a quorum aggregate into an accepted multi-signature |
| `AggregationSpec.ReturnedAggregateVerifies` | aptos-core/types/src/ledger_info.rs:518-537 | truthful flags stay truthful, and any aggregate returned is accepted, from the fallback too |
| `AggregationSpec.TryAggregateExactly` | aptos-core/types/src/ledger_info.rs:498-509 | with known voters aggregation succeeds exactly when somebody voted and the quorum is reached |
| `AggregationSpec.TryAggregateErrors` | aptos-core/types/src/ledger_info.rs:498-509 | unknown voters, too little power (with both numbers) and no voters each give their error |
| `AggregationSpec.AggregateCoversHeld` | aptos-core/types/src/ledger_info.rs:498-509 | the aggregate is of everything held: its mask reads back as the voters and its signature is the sum of theirs |
| `AggregationSpec.ValidQuorumSucceeds` | aptos-core/types/src/ledger_info.rs:518-537 | once the valid signatures held reach the quorum the call succeeds, whatever else is held |
| `AggregationSpec.FallbackSucceedsExactly` | aptos-core/types/src/ledger_info.rs:530-535 | after a fallback the call succeeds exactly when the valid signatures alone reach the quorum |
| `AggregationSpec.ValidSignaturesSurvive` | aptos-core/types/src/ledger_info.rs:511-535 | no valid or flagged signature is dropped; after a fallback exactly the valid ones remain, all flagged, and the others are the culprits |
| `AggregationSpec.FallbackFindsCulprit` | aptos-core/types/src/validator_verifier.rs:298-309 | every fallback finds a culprit that was not suspected before, and only known validators |
| `AggregationSpec.SlowExactly` | aptos-core/types/src/ledger_info.rs:518-535 | the slow path is taken exactly when everything held aggregates but does not verify |
| `AggregationSpec.FallbacksAreSlowCalls` | aptos-core/types/src/ledger_info.rs:518-537 | the number bounded by `FallbacksBounded` counts exactly the calls of the run that take the slow path |
| `AggregationSpec.FallbacksBounded` | aptos-core/types/src/validator_verifier.rs:270-312 | over every run the slow path is taken at most as often as there are validators not suspected at the start |
| `AggregationSpec.HonestNeverSuspected` | aptos-core/types/src/validator_verifier.rs:288-312 | over every run a validator all of whose signatures are valid is not added to the pessimistic set |
| `Aggregation.FromSignature` | aptos-core/types/src/ledger_info.rs:404-409 | a new signature has a cell of its own with the flag down |
| `Aggregation.SharedVerifier.constructor` | aptos-core/types/src/validator_verifier.rs:185-215 | a new verifier has the default quorum, suspects nobody and is not optimistic |
| `Aggregation.SharedVerifier.SetOptimisticSigVerificationFlag` | aptos-core/types/src/validator_verifier.rs:237-239 | sets the flag |
| `Aggregation.SharedVerifier.OptimisticVerify` | aptos-core/types/src/validator_verifier.rs:270-286 | admits as `Admit` says and changes at most the flag of this signature |
| `Aggregation.SharedVerifier.FilterInvalidSignatures` | aptos-core/types/src/validator_verifier.rs:288-312 | keeps whatever passed at the start and flags what it keeps, raises flags only where a sharer of the cell is valid, adds exactly the dropped authors to the pessimistic set; if authors that share a cell agree (`CellsAgree`), exactly what passes is kept and the flags of what is dropped stay down |
| `Aggregation.SignatureAggregator.AddSignature` | aptos-core/types/src/ledger_info.rs:461-463 | the signature and its shared cell replace what the validator had |
| `Aggregation.SignatureAggregator.VerifiedVoters` | aptos-core/types/src/ledger_info.rs:465-473 | the voters whose flag is up |
| `Aggregation.SignatureAggregator.TryAggregate` | aptos-core/types/src/ledger_info.rs:498-509 | the quorum check, then the aggregate of everything held |
| `Aggregation.SignatureAggregator.FilterInvalidSignatures` | aptos-core/types/src/ledger_info.rs:511-514 | the same for what is held; under `CellsAgree` as functions of what was held |
| `Aggregation.SignatureAggregator.AggregateAndVerify` | aptos-core/types/src/ledger_info.rs:518-537 | nothing held changes unless the aggregate is bad, then it is filtered and aggregated again; under `CellsAgree` result, held signatures and pessimistic set are those of the value-level call |
| `AggregationRuns.AddingKeepsAgreement` | aptos-core/types/src/ledger_info.rs:461-463 | adding a signature whose cell no other author holds keeps `CellsAgree` |
| `AggregationRuns.Receive` | aptos-core/types/src/validator_verifier.rs:270-286 | admission and adding on the objects is the step `Receive` of the machine, and flags stay truthful |
| `AggregationRuns.Ask` | aptos-core/types/src/ledger_info.rs:518-537 | `aggregate_and_verify` on the objects is the step `Aggregate` of the machine, and flags stay truthful |
| `AggregationRuns.ServeAll` | aptos-core/types/src/ledger_info.rs:461-537 | every sequence of requests to the objects is a run of the machine |
| `AggregationRuns.Serve` | aptos-core/types/src/ledger_info.rs:461-537 | on the objects the slow path is taken at most once per validator not suspected at the start, and senders of valid signatures only are not suspected |
| `EpochChange.Verify` | aptos-core/types/src/epoch_change.rs:67-119 | the two loops skip the stale prefix and verify the chain, with the stated errors |
| `EpochChange.ProofOutcome` | aptos-core/types/src/epoch_change.rs:67-119 | the outcome of every proof: empty, stale, accepted exactly if linked from the first ledger info that is not stale on, and otherwise the error of what breaks it first |
| `EpochChange.ChainOutcome` | aptos-core/types/src/epoch_change.rs:106-116 | a chain is accepted exactly when every ledger info ends an epoch and convinces the verifier the one before it names |
| `EpochChange.ConvincedExactly` | aptos-core/types/src/epoch_state.rs:42-51 | a waypoint accepts exactly its own version and hash, an epoch state exactly signed ledger infos of its epoch |
| `EpochChange.StaleForExactly` | aptos-core/types/src/epoch_state.rs:53-59 | a waypoint is past lower versions, an epoch state past earlier epochs |
| `EpochChange.StalePrefixIgnored` | aptos-core/types/src/epoch_change.rs:80-105 | stale ledger infos in front never change the result of a non-empty proof |
| `EpochChange.ChainSplits` | aptos-core/types/src/epoch_change.rs:106-116 | a chain verifies exactly when a prefix does and the rest does from the state the prefix hands over |
| `EpochChange.ProofSplits` | aptos-core/types/src/epoch_change.rs:67-119 | verifying whole succeeds exactly when verifying in two parts does and the second part does not begin stale; the results agree |
| `EpochChange.SplitNeedsFreshRest` | aptos-core/types/src/epoch_change.rs:103-105 | for every accepted proof with its first part sent twice: accepted in two parts, refused whole |
| `EpochChange.ChainEpochs` | aptos-core/types/src/epoch_state.rs:42-51 | along a verified chain the epochs go up one by one |
| `Ledger.CommittedFieldsExactly` | aptos-core/types/src/waypoint.rs:127-137 | two ledger infos have the same hashed fields exactly when epoch, root hash, version, time and next epoch state agree |
| `Ledger.BoundaryExactly` | aptos-core/types/src/waypoint.rs:49-52 | an epoch waypoint is made exactly of ledger infos that end their epoch |
| `TrustedStates.StaleExactly` | aptos-core/types/src/trusted_state.rs:153-160 | for every state, target and proof: refused as stale exactly when behind the client |
| `TrustedStates.BadProofIsRefused` | aptos-core/types/src/trusted_state.rs:162-164 | a needed proof that does not verify is refused with its own error |
| `TrustedStates.VerifiedProofDecides` | aptos-core/types/src/trusted_state.rs:162-199 | for every needed and verified proof, genuine or not: when the target is adopted, refused for its signature, refused as inconsistent, or left for later because there is more |
| `TrustedStates.RefusalKeepsState` | aptos-core/types/src/trusted_state.rs:148-152 | a refused response changes nothing |
| `LightClientSafety.VerifiedIsCommitted` | aptos-core/types/src/waypoint.rs:63-86 | what a good waypoint or epoch state verifies has the committed fields of a canonical ledger info |
| `LightClientSafety.VerifiedChainIsGood` | aptos-core/types/src/epoch_change.rs:106-116 | every chain verified from a good verifier ends in the canonical next validator set |
| `LightClientSafety.VerifiedProofIsGood` | aptos-core/types/src/epoch_change.rs:67-119 | a verified proof ends in a committed epoch change no older than the client's version and epoch |
| `LightClientSafety.ChosenIsCommitted` | aptos-core/types/src/trusted_state.rs:179-188 | the ledger info chosen is committed in the new epoch or opens it |
| `LightClientSafety.RatchetIsSafe` | aptos-core/types/src/trusted_state.rs:148-234 | a successful ratchet from a trusted state ends in a trusted state, never lowers the version, and an epoch change reports a canonical one and strictly raises the epoch |
| `LightClientSafety.SuccessVouches` | aptos-core/types/src/trusted_state.rs:176-199 | after a success the target is canonical and the client is at it, unless the server admitted to more epoch changes and the target is of an epoch still ahead |
| `LightClientSafety.EveryRunIsTrusted` | aptos-core/types/src/trusted_state.rs:148-234 | against any responses every reachable state is trusted and not behind the start |
| `LightClientSafety.RunIsMonotone` | aptos-core/types/src/trusted_state.rs:153-160 | along a run no later state is behind an earlier one |
| `LightClientSafety.ClientsAgree` | aptos-core/types/src/trusted_state.rs:189-194 | two clients of one chain in the same epoch hold the same validator set |
| `LightClientSafety.GenuineProofVerifies` | aptos-core/types/src/epoch_change.rs:86-105 | genuine endings from any earlier epoch that reach past the client are accepted; a waypoint needs the endings in front to have lower versions |
| `LightClientSafety.WaypointProofExactly` | aptos-core/types/src/waypoint.rs:63-95 | genuine endings through the waypoint's ledger info are accepted exactly when none in front has its version |
| `LightClientSafety.WaypointConvincedExactly` | aptos-core/types/src/waypoint.rs:63-86 | a waypoint accepts exactly the ledger infos with its fields, and the error otherwise |
| `LightClientSafety.EpochConvincedExactly` | aptos-core/types/src/epoch_state.rs:42-51 | an epoch's validator set accepts exactly ledger infos of its epoch that it signed, and the error otherwise |
| `LightClientSafety.GenuineEndingsDecide` | aptos-core/types/src/trusted_state.rs:162-199 | on genuine endings that reach past the client, every target gets its outcome, forged and inconsistent ones included |
| `LightClientSafety.GenuineResponseIsAdopted` | aptos-core/types/src/trusted_state.rs:162-199 | genuine endings and a signed ledger info of the epoch after them move the client there |
| `LightClientSafety.GenuineEndingIsAdopted` | aptos-core/types/src/trusted_state.rs:179-180 | an epoch ending that is itself the latest ledger info opens the next epoch |
| `LightClientSafety.GenuinePartialProof` | aptos-core/types/src/trusted_state.rs:184-188 | a proof that stops short is followed as far as it reaches if there is more to come and refused otherwise |
| `LightClientSafety.WithinEpochExactly` | aptos-core/types/src/trusted_state.rs:200-233 | without an epoch change: stale, unchanged, mismatching and newer ledger infos, each with its exact outcome |
| `LightClientSafety.DeployedIsSecure` | aptos-core/types/src/ledger_info.rs:304-309 | honest quorums, unforgeability and collision freedom make every accepted ledger info of an epoch canonical |
| `LightClientSafety.DeployedChecksExactly` | aptos-core/types/src/ledger_info.rs:304-309 | what the check of a ledger info's signatures comes to in terms of mask, power and keys |
| `LightClientSafety.FaultyMinorityIsHarmless` | aptos-core/types/src/validator_verifier.rs:205-215 | faulty validators with less than a third of each epoch's power leave an honest member in every quorum |
| `LightClientSafety.LightClientSafe` | aptos-core/types/src/trusted_state.rs:138-234 | the safety theorem over runs, with the multi-signature check of the validator sets in place |
| `LightClientExample.ExampleTolerant` | aptos-core/types/src/block_info.rs:120-134 | the assumptions hold together on a two-block chain |
| `LightClientExample.ClientMoves` | aptos-core/types/src/trusted_state.rs:67-69 | on that chain a client started from the genesis waypoint reaches epoch 1 |
| `WriteSets.Squash` | aptos-core/types/src/write_set.rs:575-592 | the loop succeeds exactly when every common key squashes, yields the key-by-key result, and otherwise reports the error of the least failing key |
| `WriteSets.FoldEntry` | aptos-core/types/src/write_set.rs:579-588 | one entry is merged, inserted or removed, and no other key changes |
| `WriteSets.SquashOpMergesWell` | aptos-core/types/src/write_set.rs:118-171 | a merged op fits where the first ran, leaves the bytes of the second, keeps the first op's metadata; it fails exactly on a metadata mismatch other than delete-then-create |
| `WriteSets.CannotSquashExactly` | aptos-core/types/src/write_set.rs:118-128 | ops cannot be squashed exactly when the second does not fit what the first leaves |
| `WriteSets.SquashPreservesEffect` | aptos-core/types/src/write_set.rs:575-592 | the squashed set runs where the pair ran and leaves the same bytes at every key; merged entries keep the first op's metadata |
| `WriteSets.RunnablePairSquashesExactly` | aptos-core/types/src/write_set.rs:160-171 | a runnable pair squashes exactly when metadata agrees on common keys that are not deleted and recreated |
| `WriteSets.BracketingPreservesEffect` | aptos-core/types/src/write_set.rs:575-592 | any bracketing that evaluates has the effect of running the write sets in order |
| `WriteSets.BracketingIsNet` | aptos-core/types/src/write_set.rs:118-158 | with uniform metadata every bracketing succeeds and is decided per key by initial presence and final value |
| `WriteSets.BracketingsAgree` | aptos-core/types/src/write_set.rs:575-592 | with uniform metadata all bracketings give the same write set |
| `WriteSets.MixedMetadataDependsOnBracketing` | aptos-core/types/src/write_set.rs:142-150 | a runnable sequence with mixed metadata that squashes from the right but not from the left |
| `Bracketings.EvaluatesExactly` | aptos-core/types/src/write_set.rs:118-171 | a runnable sequence squashes under every bracketing exactly when for every key all ops carry one metadata, a creation at the end excepted |
| `Bracketings.AgreeExactly` | aptos-core/types/src/write_set.rs:118-171 | all bracketings of a runnable sequence succeed with the same result exactly when in addition keys absent at the start have no exception |
| `Bracketings.SettledEvaluates` | aptos-core/types/src/write_set.rs:575-592 | under the first condition every bracketing gives each key its net op: kind by presence before and after, bytes of the last op, metadata of the first op, or of the last where the key was absent |
| `FloydSampling.PickIdxs` | aptos-core/crates/aptos-proptest-helpers/src/lib.rs:64-85 | the result is the selected set in ascending order, in range, of length min(indexes_len, max) |
| `FloydSampling.SelectRounds` | aptos-core/crates/aptos-proptest-helpers/src/lib.rs:71-83 | the loop computes the selection of the numbers drawn |
| `FloydSampling.SelectSize` | aptos-core/crates/aptos-proptest-helpers/src/lib.rs:73-83 | each round adds one new number below the bound |
| `FloydSampling.SamplingIsUniform` | aptos-core/crates/aptos-proptest-helpers/src/lib.rs:56-85 | every k-element subset of [0, max) is selected by exactly k! choice vectors |
| `FloydSampling.PickingIsUniform` | aptos-core/crates/aptos-proptest-helpers/src/lib.rs:64-85 | uniformity of the operation: exactly k! of the vectors that the sources of a call can draw make it select any given k numbers below max |
| `FloydSampling.ChoiceVectorsExactly` | aptos-core/crates/aptos-proptest-helpers/src/lib.rs:73-79 | the set of choice vectors is exactly the vectors the draws can produce |
| `FloydSampling.ChoiceVectorCount` | aptos-core/crates/aptos-proptest-helpers/src/lib.rs:72-79 | there are max!/(max-k)! choice vectors |
| `FloydSampling.ChoicesAreDraws` | aptos-core/crates/aptos-proptest-helpers/src/lib.rs:74-79 | every choice vector is drawn by some sources |
| `RepeatVecs.RepeatVec.constructor` | aptos-core/crates/aptos-proptest-helpers/src/repeat_vec.rs:56-61 | a new vector is empty and well formed |
| `RepeatVecs.RepeatVec.Extend` | aptos-core/crates/aptos-proptest-helpers/src/repeat_vec.rs:103-109 | appends the copies and keeps the runs well formed |
| `RepeatVecs.RepeatVec.Remove` | aptos-core/crates/aptos-proptest-helpers/src/repeat_vec.rs:115-117 | removes one logical position, or nothing if out of range |
| `RepeatVecs.RepeatVec.RemoveAll` | aptos-core/crates/aptos-proptest-helpers/src/repeat_vec.rs:123-128 | removes exactly the in-range positions of any list from the logical sequence |
| `RepeatVecs.RepeatVec.RemoveAllImpl` | aptos-core/crates/aptos-proptest-helpers/src/repeat_vec.rs:130-203 | the pass over the runs does the same for sorted positions and keeps the runs well formed |
| `RepeatVecs.RewriteFrom` | aptos-core/crates/aptos-proptest-helpers/src/repeat_vec.rs:165-199 | the nested loops leave runs that hold what is left, and no more is removed than there is |
| `RepeatVecs.RewriteOne` | aptos-core/crates/aptos-proptest-helpers/src/repeat_vec.rs:174-196 | the loop body takes in one more run; its subtractions stay natural and the internal assertion holds |
| `RepeatVecs.RemoveFromRun` | aptos-core/crates/aptos-proptest-helpers/src/repeat_vec.rs:178-196 | a run loses as many copies as removed positions fall into it |
| `RepeatVecs.BatchIsOneByOne` | aptos-core/crates/aptos-proptest-helpers/src/repeat_vec.rs:119-128 | batch deletion equals deleting one position at a time, the highest first |
| `RepeatVecs.RemoveLength` | aptos-core/crates/aptos-proptest-helpers/src/repeat_vec.rs:202-202 | the length drops by the number of in-range positions |
| `RepeatVecs.RemoveMovesDown` | aptos-core/crates/aptos-proptest-helpers/src/repeat_vec.rs:119-128 | what stays keeps its order and moves down by the number of positions removed below it |
| `RepeatVecs.RepeatVec.BinarySearch` | aptos-core/crates/aptos-proptest-helpers/src/repeat_vec.rs:241-244 | the run starting at the position, or where such a run would go |
| `RepeatVecs.RepeatVec.Get` | aptos-core/crates/aptos-proptest-helpers/src/repeat_vec.rs:207-221 | the logical element with its offset in the run, or nothing past the end |
| `RepeatVecs.RepeatVec.PickUniform` | aptos-core/crates/aptos-proptest-helpers/src/repeat_vec.rs:231-239 | the elements at the sampled positions with their offsets in their runs; every lookup is in range |
| `ReplayTasks.ReplayScheduler.CreateTasks` | aptos-core/testsuite/replay-verify/main.py:356-383 | in terms of the fields: the tasks appended are in order, in range, of allowed size, short only before a heeded range or the end, and cover a version exactly when no heeded range does and the piece around it is long enough |
| `ReplayTasks.ReplayScheduler.AppendTasks` | aptos-core/testsuite/replay-verify/main.py:365-382 | under the exact condition for ending, the loop appends the pieces that are long enough |
| `ReplayTasks.TasksAreAsPlanned` | aptos-core/testsuite/replay-verify/main.py:356-383 | the same of the pieces of the sorted and filtered list |
| `ReplayTasks.GapExists` | aptos-core/testsuite/replay-verify/main.py:365-378 | every version in range that is not skipped lies in such a stretch between heeded ranges |
| `ReplayTasks.SortIsStable` | aptos-core/testsuite/replay-verify/main.py:359-363 | ranges that begin together stay in the order given |
| `ReplayTasks.PopSkips` | aptos-core/testsuite/replay-verify/main.py:366-368 | the inner loop jumps over the skip ranges that hold the current version |
| `ReplayTasks.RetainedSkips` | aptos-core/testsuite/replay-verify/main.py:359-363 | the skip list is sorted and holds exactly the ranges beginning after the start version |
| `ReplayTasks.PiecesAreWellCut` | aptos-core/testsuite/replay-verify/main.py:365-382 | pieces are ordered, disjoint, in range, at most a task long, and shorter only at the end or before a skip |
| `ReplayTasks.PiecesAvoidSkips` | aptos-core/testsuite/replay-verify/main.py:365-382 | a version is in a piece exactly when it is in no range to skip, ends included |
| `ReplayTasks.TasksCoverTheRest` | aptos-core/testsuite/replay-verify/main.py:356-383 | tasks are ordered, disjoint, of allowed size and clear of skips, and every other version is in a task or a dropped short piece |
| `ReplayTasks.TaskCoversExactly` | aptos-core/testsuite/replay-verify/main.py:365-382 | a version is in a task exactly when it is in range, not skipped, and the piece around it, given in closed form, is long enough |
| `ReplayTasks.EarlySkipsAreMissed` | aptos-core/testsuite/replay-verify/main.py:362-362 | the tasks are clear of all given ranges exactly when what the ignored ranges cover is covered by retained ones or lies in pieces too short for a task |
| `ReplayTasks.EarlySkipsMissedWithoutMinimum` | aptos-core/testsuite/replay-verify/main.py:362-362 | with a minimum of at most 1, exactly when the retained ranges cover what the ignored ones do |
| `ReplayTasks.EarlySkipIsReplayed` | aptos-core/testsuite/replay-verify/main.py:362-362 | an input where a task covers a version that was to be skipped |
| `ReplayTasks.EndsExactly` | aptos-core/testsuite/replay-verify/main.py:365-382 | the loop ends exactly when it gets past every skip range it meets |
| `ReplayTasks.DisjointSkipsProgress` | aptos-core/testsuite/replay-verify/main.py:366-368 | disjoint non-empty skip ranges, ends included, suffice for that |
| `ReplayTasks.DisjointRangesAreServed` | aptos-core/testsuite/replay-verify/main.py:356-383 | disjoint non-empty ranges in any order let the loop end, and if all begin after the start version the promise of `TasksCoverTheRest` holds for all of them |
| `ReplayTasks.TouchingSkipsNeverEnd` | aptos-core/testsuite/replay-verify/main.py:366-378 | ranges that merely touch make the loop run forever |
| `ModuleCaches.ValidationState.constructor` | aptos-core/vm-validator/src/vm_validator.rs:81-88 | an empty cache and the environment of the snapshot |
| `ModuleCaches.ValidationState.ResetStateView` | aptos-core/vm-validator/src/vm_validator.rs:92-94 | replaces the snapshot only |
| `ModuleCaches.ValidationState.ResetAll` | aptos-core/vm-validator/src/vm_validator.rs:98-102 | the state is as newly created |
| `ModuleCaches.ValidationState.BuildModule` | aptos-core/vm-validator/src/vm_validator.rs:216-234 | the module as the snapshot has it, or the stated error |
| `ModuleCaches.ValidationState.GetModuleOrBuildWith` | aptos-core/vm-validator/src/vm_validator.rs:140-203 | for any answer of the builder, result and cache are those of the value-level lookup |
| `ModuleCaches.ValidationState.GetModule` | aptos-core/vm-validator/src/vm_validator.rs:140-234 | the same with the state itself as the builder |
| `ModuleCaches.LookupIsCurrent` | aptos-core/vm-validator/src/vm_validator.rs:140-234 | a lookup returns what the current snapshot holds, touches no other key, and raises the version exactly when it sees changed code |
| `ModuleCaches.HashDecides` | aptos-core/vm-validator/src/vm_validator.rs:181-202 | cached code is kept exactly when its hash is that of the snapshot's bytes, and replaced at the next version otherwise |
| `ModuleCaches.InsertExactly` | aptos-core/third_party/move/move-vm/types/src/code/cache/module_cache.rs:255-285 | an insertion is refused exactly below the cached version and never replaces code of the same version |
| `ModuleCaches.RunState` | aptos-core/vm-validator/src/vm_validator.rs:92-102 | after any run the snapshot is the one put in place last and the environment that of the last full reset |
| `ModuleCaches.AnyBuilderIsCurrent` | aptos-core/vm-validator/src/vm_validator.rs:159-202 | whatever outdated code a builder answers with, the lookup returns the module of the current snapshot |
| `ModuleCaches.BuilderHasTheLastWord` | aptos-core/vm-validator/src/vm_validator.rs:155-161 | what is neither cached nor given by the builder is an error or nothing, as the builder says |
| `ModuleCaches.EveryLookupIsCurrent` | aptos-core/vm-validator/src/vm_validator.rs:92-234 | the same after any interleaving of snapshot replacements, full resets and lookups |
| `ModuleCaches.VersionsCountChanges` | aptos-core/vm-validator/src/vm_validator.rs:179-202 | between full resets a version counts exactly the lookups that saw changed code, and nothing leaves the cache |

## Left out

- BLS arithmetic, hashing and serialization: taken as functions with the assumptions above.
- The zero-quorum shortcut of `verify_multi_signatures` and all generators that exist only for testing and fuzzing.
- `new_with_quorum_voting_power` and `verify_aggregate_signatures`: the first is for custom quorums, the second repeats the mask and quorum checks of `verify_multi_signatures`.
- Parallel execution inside `filter_invalid_signatures`: the model looks at one entry after another, in any order.
- Machine integer bounds: `usize`, `u64` and `u128` values are unbounded naturals, apart from the 16-bit casts and the unsigned subtractions.
- `try_from_epoch_change_li`: its accumulator check lies outside the model.
- Sorting and binary search of the standard libraries are replaced by their specified results; `sorted` in `create_tasks` is a stable insertion sort.
- ModuleCaches.ValidationState.GetModuleOrBuildWith: only deserialized code is cached; `insert_verified_module` and module verification are not modelled, and the builder is represented by its answer for the key.
- The rest of the replay scheduler (pods, volumes, retries, logs).
- Persistence formats of write ops and waypoints, and the textual form of waypoints: they would add only easy members.
