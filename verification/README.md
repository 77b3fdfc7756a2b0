# Hippius: bridge, wire codecs, commitments and account profiles, verified

This project models four parts of the Hippius repository in Dafny 4.11 and proves what they promise.

**Guardian bridge** (`Bridge`, `BridgeVotes`, `BridgeRuns`, `BridgeProgress`, `BridgeIds`, `BridgeSolvency`,
`BridgePayments`, `BridgeOrigins`, `BridgeSettings`, `BridgeContract`).
The ink! contract that locks stake on Bittensor and releases it when guardians vote. `Bridge` says what each message
does to storage and to the stake ledger; `BridgeContract` is the contract as an object that updates its fields in
place, each message proved against that specification and to keep the object in a state some run reaches. The caller,
the block number, failing stake queries and the chain's answer to every stake request the contract could make are
parameters, so every theorem is about every behaviour of the chain unless it says otherwise. What the contract asks for
is not a parameter: `BridgePayments` proves whom a release pays and how much, `BridgeOrigins` which message every record
came from, `BridgeSettings` where every setting and every refusal came from. A message that returns an error changes nothing, the ledger included. A run is any sequence of messages and
of ledger changes the contract takes no part in; the log of a state records what happened, with the guardian set and
the threshold in force at the time. The hash is an arbitrary function. Where ids matter, the assumption is only that
no two preimages hashed in that run collide.

**Deterministic CBOR and its codecs** (`Cbor`, `Canonical`, `CanonicalLoops`, `Records`, `RecordLoops`, `RecordSize`,
`HostAttestor`, `Provenance`, `EvidenceBundle`, `Separation`, `Heartbeat`, `VaultBroker`, `BrokerMessages`,
`Lookups`, `HostAttestorReads`, `ArtifactReads`, `HeartbeatReads`, `BrokerReads`).
The encoder with shortest heads and the one-item decoder (sections 3 and 4.1 of RFC 8949), the canonicaliser and the
canonical gate (section 4.2.1 of RFC 8949), and a codec for records of named fields, proved once and instantiated.
`canonicalize` sorts maps reached through arrays and maps and does not descend into tags; the statements follow that.
The modules ending in `Reads` say which bodies are accepted, and as what, by looking keys up in the map the body is:
they use neither the schemas nor the validators of the codecs.

**Commitments and bindings** (`AuditVm`, `RootContents`, `Framing`, `PreimageReads`, `ScopePaths`). Sorted receipt and total roots, the minimal
128-bit integer, length-framed hash preimages, the report-data bindings and the scope paths of the secret broker.
Results are stated on preimages; hashes are function parameters.

**Account profiles** (`HexText`, `AccountProfile`, `ProfileHistory`, `ChallengeReplay`, `AccountProfilePallet`). The
two-way username index, the profiles and the bounded store of used challenges, over every run of the pallet's calls. What other pallets answer, the block number, the
genesis hash, the hash function, the signature check and the order in which a storage iteration yields keys are
parameters.

`ByteStrings` and `Sorting` hold byte-order, UTF-8, stable-sort and permutation facts used by the others.

Where the code does not do what its words or its purpose suggest, the model follows the code, shows an input and proves
the exact condition:

- **Eviction and replay.** The eviction loop of the challenge store says it removes the oldest entry; it removes the
  first key of an iteration over the map, and it does so before looking for the challenge
  (`pallets/account-profile/src/lib.rs:455-462`). `ChallengeReplay.ReplayAcceptedExactly` says when a stored challenge is
  accepted again, `ChallengeReplay.EvictsOldestExactly` when the evicted entry is the oldest,
  `ChallengeReplay.AcceptedTwice` gives a run in which the newest challenge is accepted twice in a row, and
  `ChallengeReplay.OldestFirstSpaces` what would hold if eviction took the oldest.
- **Repeated guardians and stuck records.** The threshold is checked against the length of the guardian list, repeats
  included (`contracts/bridge/src/lib.rs:460-464`), and a vote that already reaches a lowered threshold is not looked at
  again. `BridgeProgress.CompletableExactly` says when the guardians of the moment can still bring a record to release;
  `BridgeProgress.RepeatedGuardianNeverReaches`, `BridgeProgress.AllVotedIsStuck` and
  `BridgeProgress.LoweredThresholdReached` give the failing cases.
- **Unknown scope keys.** The broker's decoder refuses unknown top-level keys, not unknown keys of the nested scope
  (`hippius-types/src/vault_broker.rs:226-247`). `BrokerMessages.ReencodesExactly` gives the exact condition,
  `BrokerMessages.UnknownScopeKeyAccepted` the failing family and `BrokerMessages.AcceptedWithUnknownKey` one member.
- **Audit-VM field lengths** are cast to 32 bits. `Framing.AuditVmInjectiveExactly` proves the preimage injective below
  2^32 bytes per field and not beyond; `Framing.LongFieldsCollide` gives two inputs.

## Model

| member | source | states |
|---|---|---|
| BridgeRuns.ReleasesAreBacked | contracts/bridge/src/lib.rs:259-338 | in every reachable state, every release by vote had at least the threshold then in force of pairwise distinct voters, each a guardian when voting, each vote after the record's last clean-up, across any guardian rotations |
| BridgeRuns.ReleasesAreSeparated | contracts/bridge/src/lib.rs:556-584 | between two releases by vote of one id lies a clean-up of its record, at a block at least the time-to-live then in force (saturating) after the first release |
| BridgeRuns.RecordsStayOk | contracts/bridge/src/lib.rs:286-335 | in every reachable state a record has no repeated voter, 1 to 10 votes, at most 9 while pending, and a finalisation block exactly when not pending, so a vote count never truncates |
| BridgeRuns.RunLater | contracts/bridge/src/lib.rs:424-445 | until its clean-up a record keeps id, recipient, amount, creation block and the votes it has; once completed or cancelled it does not change at all |
| BridgeRuns.StepLater | contracts/bridge/src/lib.rs:556-584 | one step changes a record only that way, or removes it: by a guardian, when final, at or past finalisation plus time-to-live |
| BridgeRuns.PausedRun | contracts/bridge/src/lib.rs:681-686 | from a pause to the next unpause nothing is deposited, voted on or released by vote, no nonce is used, no table gains a record, deposits change at most their status and withdrawals are at most cancelled or removed |
| BridgeRuns.OnlyOwnerConfigures | contracts/bridge/src/lib.rs:449-514 | owner, hotkey, pause flag, guardians, threshold, minimum and time-to-live change only in a message of the owner of the moment, and a new threshold is between 1 and the length of the guardian list, repeats counted, at most 10 |
| BridgeProgress.CompletableExactly | contracts/bridge/src/lib.rs:286-335 | in every reachable state of a running bridge whose hotkey covers the amount, some run that neither replaces the guardians nor cancels the record completes it if and only if some guardian has not voted on it and its votes with all of theirs reach the threshold; for a new record: if and only if there are guardians and at least the threshold of different ones |
| BridgeProgress.NeverCompletes | contracts/bridge/src/lib.rs:286-335 | otherwise the record stays open over every such run, gaining only votes of guardians |
| BridgeProgress.NextVoteCompletesExactly | contracts/bridge/src/lib.rs:305-334 | some vote completes the record at once if and only if some guardian has not voted and at most one vote is missing |
| BridgeProgress.RepeatedGuardianNeverReaches | contracts/bridge/src/lib.rs:449-476 | naming one account twice with threshold two is accepted, and then no new record ever completes |
| BridgeProgress.AllVotedIsStuck | contracts/bridge/src/lib.rs:288-309 | a pending record every current guardian has voted on keeps its votes and stays pending, even above a lowered threshold |
| BridgeProgress.LoweredThresholdReached | contracts/bridge/src/lib.rs:449-476 | such a record is reached from any fresh contract in four messages |
| BridgeVotes.StepKeeps | contracts/bridge/src/lib.rs:449-476 | every message, guardian rotations and threshold changes included, keeps the voting invariant |
| BridgeVotes.ReachableOk | contracts/bridge/src/lib.rs:92-107 | every state reached from a fresh contract satisfies the voting invariant |
| BridgeVotes.SinceMeans | contracts/bridge/src/lib.rs:578-583 | an event counts as "since the last clean-up of an id" exactly when no clean-up of that id follows it in the log |
| BridgeVotes.VotedRecordOk | contracts/bridge/src/lib.rs:288-321 | a vote by a guardian who has not voted leaves a pending record with no repeated voter, at most ten votes, each of them in the log |
| BridgeIds.DepositTables | contracts/bridge/src/lib.rs:198-232 | in every reachable state the deposit table and the nonce index are inverse to each other, live nonces are below the next nonce, the next nonce is the number of deposits made, and each id is the hash of its record's terms |
| BridgeIds.DepositNeverOverwrites | contracts/bridge/src/lib.rs:198-232 | a deposit's id and nonce are both new, so neither insert overwrites |
| BridgeIds.DepositAcceptedExactly | contracts/bridge/src/lib.rs:121-205 | a deposit is accepted if and only if the bridge runs, the amount is at least the minimum and held by the caller, all queries are answered, both balances moved by the amount less at most ten, a foreign hotkey can be emptied and a nonce is left |
| BridgeIds.ScaledFits | contracts/bridge/src/lib.rs:203-205 | the multiplication to the destination chain's unit never overflows 128 bits |
| BridgeIds.DepositPreimageInjective | contracts/bridge/src/lib.rs:207-217 | a deposit preimage determines sender, amount and nonce |
| BridgeIds.WithdrawalPreimageInjective | contracts/bridge/src/lib.rs:269-280 | a withdrawal preimage determines recipient, amount and nonce |
| BridgeIds.DepositPreimageLayout | contracts/bridge/src/lib.rs:203-217 | a byte string is the deposit preimage exactly when it is the tag, the sender, the amount in the destination unit and the nonce at their fixed offsets, little-endian |
| BridgeIds.WithdrawalPreimageLayout | contracts/bridge/src/lib.rs:269-280 | likewise for withdrawals |
| BridgeIds.PreimagesDisjoint | contracts/bridge/src/types.rs:24-27 | no deposit preimage is a withdrawal preimage |
| BridgeIds.IdsNeverShared | contracts/bridge/src/lib.rs:207-280 | in every reachable state no id names both a deposit and a withdrawal |
| BridgeIds.VotesAreForTheRecord | contracts/bridge/src/lib.rs:269-311 | every vote a record counts was cast for the record's own recipient and amount |
| BridgeIds.ReleasesPayWhatWasVoted | contracts/bridge/src/lib.rs:714-753 | every vote behind a release was cast, since the last clean-up, for the very recipient and amount released |
| BridgeIds.DepositsLater | contracts/bridge/src/lib.rs:529-552 | a deposit record changes only from requested to failed, and is removed only by a guardian, together with its nonce, at or past creation plus time-to-live |
| BridgeSolvency.RunSolvent | contracts/bridge/src/lib.rs:121-242 | on a chain that debits the contract only for what it was asked to pay, its stake over all hotkeys plus everything paid out is at least the sum of all deposits less 10 each, over every run from a solvent state, whatever hotkey and guardian changes |
| BridgeSolvency.FreshStaysSolvent | contracts/bridge/src/lib.rs:92-107 | a fresh contract is solvent, so every run from it on such a chain is |
| BridgeSolvency.PayableFromHotkey | contracts/bridge/src/lib.rs:178-196 | while the contract's hotkey is unchanged and nothing else touches its stake, all of it sits on that hotkey, so the stake a release is paid from covers everything deposited and not paid out |
| BridgeSolvency.DepositSolvent | contracts/bridge/src/lib.rs:137-176 | an accepted deposit raised the contract's total by at least the amount less the tolerance, through the transfer and the consolidation |
| BridgeSolvency.TotalMoves | contracts/bridge/src/lib.rs:137-196 | a ledger change that lowers no hotkey but one lowers the total by no more than that one |
| BridgePayments.ReleasePays | contracts/bridge/src/lib.rs:714-753 | on a chain that carries out what it accepts, the step that completes a record finds its amount on the contract's hotkey, lowers the contract's stake there by exactly that and raises the recipient's there by exactly that, and no other stake changes |
| BridgePayments.ManualReleasePays | contracts/bridge/src/lib.rs:392-412 | the owner's manual release moves exactly the amount asked to the account asked |
| BridgePayments.DepositArrives | contracts/bridge/src/lib.rs:137-196 | an accepted deposit leaves at least its amount less the tolerance more on the contract's own hotkey, whichever hotkey it came in on |
| BridgePayments.LedgerChangesOnly | contracts/bridge/src/lib.rs:121-412 | stake changes only in a deposit, in a vote that completes its record, in a manual release by the owner, or outside the contract |
| BridgePayments.RunBounded | contracts/bridge/src/lib.rs:121-242 | the other half of solvency: over every run on such a chain, what is held plus what was paid to others is at most what was held at the start plus what was deposited |
| BridgeOrigins.DepositOrigin | contracts/bridge/src/lib.rs:198-241 | after every run, each deposit record is that of one accepted deposit message: its caller is sender and recipient, its amount, hotkey and block, the contract's chain id and the nonce of that moment; it is failed exactly when the owner failed it since |
| BridgeOrigins.DepositIdsDiffer | contracts/bridge/src/lib.rs:198-217 | no two accepted deposits of a run share an id, so the message is the only one |
| BridgeOrigins.DepositCleanedInTime | contracts/bridge/src/lib.rs:529-552 | a deposit is cleaned up by a guardian, and only at or past its own message's block plus the time-to-live then in force (saturating) |
| BridgeOrigins.WithdrawalOrigin | contracts/bridge/src/lib.rs:286-335 | after every run, each withdrawal record was opened by an accepted vote, with its recipient, amount, block and voter; a completed or cancelled one carries the block of the vote or cancellation that finished it |
| BridgeOrigins.WithdrawalCleanedInTime | contracts/bridge/src/lib.rs:556-584 | a withdrawal is cleaned up by a guardian, and only at or past the block of the message that completed or cancelled it plus the time-to-live then in force |
| BridgeOrigins.CleanableExactly | contracts/bridge/src/lib.rs:556-584 | in every reachable state a guardian can remove a withdrawal exactly when it is final and its time-to-live has passed, and that removes no other record |
| BridgeSettings.SettingIsLatest | contracts/bridge/src/lib.rs:449-608 | after every run, owner, hotkey, pause flag, guardians with threshold, minimum and time-to-live are each what the latest accepted message for it asked for, or the initial value if there was none |
| BridgeSettings.FreshSettings | contracts/bridge/src/lib.rs:92-107 | the values a new contract starts with |
| BridgeSettings.RefusedExactly | contracts/bridge/src/lib.rs:121-608 | in every reachable state a message is refused if and only if the reason of one of its errors is true, and the error returned is one whose reason is true |
| BridgeVotes.ReachableStep | contracts/bridge/src/lib.rs:84-90 | one more message or outside ledger change keeps a state reachable |
| BridgeContract.Contract.Facts | contracts/bridge/src/lib.rs:54-82 | the voting invariant, and without collisions the id and table invariant, hold of the object after any sequence of its messages |
| BridgeContract.Contract.constructor | contracts/bridge/src/lib.rs:92-107 | a new contract is the initial state |
| BridgeContract.Contract.PullStake | contracts/bridge/src/lib.rs:133-176 | the transfer in is refused for exactly the listed reasons, in order, and otherwise leaves the transferred ledger, with both sides within tolerance |
| BridgeContract.Contract.Consolidate | contracts/bridge/src/lib.rs:178-196 | stake received on another hotkey is moved to the contract's, or the error is returned |
| BridgeContract.Contract.RecordRequest | contracts/bridge/src/lib.rs:198-241 | both tables and the nonce advance together or nothing changes; the new record is the caller's, with the amount, hotkey, chain id, block and nonce of this call, under the id returned |
| BridgeContract.Contract.HandleDeposit | contracts/bridge/src/lib.rs:121-242 | reply and new state are those of the specification; a rejected deposit leaves storage and ledger as they were |
| BridgeContract.Contract.Deposit | contracts/bridge/src/lib.rs:121-242 | likewise, and the object stays reachable; an accepted deposit takes a new id and a new nonce and leaves the tables inverse to each other |
| BridgeContract.Contract.FinalizeWithdrawal | contracts/bridge/src/lib.rs:714-753 | an accepted release is the chain's answer to a transfer of the record's amount to the record's recipient, and the record is completed at this block; a refused one changes nothing |
| BridgeContract.Contract.HandleVote | contracts/bridge/src/lib.rs:259-338 | likewise for a vote: one whose release fails is not recorded |
| BridgeContract.Contract.AttestWithdrawal | contracts/bridge/src/lib.rs:259-338 | likewise, and a record it completes has at least the threshold of different voters, each a guardian when voting, since its last clean-up |
| BridgeContract.Contract.AdminFailDeposit | contracts/bridge/src/lib.rs:354-373 | likewise |
| BridgeContract.Contract.AdminManualRelease | contracts/bridge/src/lib.rs:392-412 | likewise |
| BridgeContract.Contract.AdminCancelWithdrawal | contracts/bridge/src/lib.rs:424-445 | likewise |
| BridgeContract.Contract.SetGuardiansAndThreshold | contracts/bridge/src/lib.rs:449-476 | likewise |
| BridgeContract.Contract.SetPaused | contracts/bridge/src/lib.rs:479-492 | likewise, for pause and unpause |
| BridgeContract.Contract.UpdateOwner | contracts/bridge/src/lib.rs:495-501 | likewise |
| BridgeContract.Contract.SetContractHotkey | contracts/bridge/src/lib.rs:504-514 | likewise |
| BridgeContract.Contract.CleanupDepositRequest | contracts/bridge/src/lib.rs:529-552 | likewise |
| BridgeContract.Contract.CleanupWithdrawal | contracts/bridge/src/lib.rs:556-584 | likewise |
| BridgeContract.Contract.SetCleanupTtl | contracts/bridge/src/lib.rs:588-597 | likewise |
| BridgeContract.Contract.SetMinDepositAmount | contracts/bridge/src/lib.rs:601-608 | likewise |
| Cbor.DecodeEncode | hippius-types/src/cbor.rs:16-21 | reading the encoding of a value, whatever follows it, gives back the value and what follows |
| Cbor.PrefixFree | hippius-types/src/cbor.rs:16-21 | no encoding is a prefix of another |
| Cbor.EncodeInjective | hippius-types/src/cbor.rs:16-21 | different values have different encodings |
| Cbor.InitialByte | hippius-types/src/cbor.rs:16-21 | the upper three bits of the first byte are the major type of the value; false, true and null have their one-byte forms |
| Cbor.HeadLayout | hippius-types/src/cbor.rs:16-21 | the argument takes the fewest of zero, one, two, four or eight big-endian bytes that hold it, and the lower five bits say how many |
| Cbor.DecodedWellFormed | hippius-types/src/cbor.rs:58-62 | whatever the decoder accepts, in shortest form or not, is a value the encoder can write |
| Cbor.TextKeyOrder | hippius-types/src/cbor.rs:27-39 | for all text keys, bytewise order of the encodings is shorter first, then bytewise |
| Canonical.CanonicalizeIsCanonical | hippius-types/src/cbor.rs:23-50 | the result has strictly ascending encoded keys in every map reached through arrays and maps |
| Canonical.CanonicalIsFixed | hippius-types/src/cbor.rs:23-50 | a canonical value canonicalises to itself, so canonicalising is idempotent |
| Canonical.FailsExactlyOnRepeatedKeys | hippius-types/src/cbor.rs:34-39 | canonicalising fails exactly when some such map has two keys that are equal up to reordering |
| Canonical.GateAcceptsExactlyCanonicalOutputs | hippius-types/src/cbor.rs:53-67 | the gate accepts exactly the outputs of the canonical encoder: unsorted, repeated, non-shortest and trailing input is refused |
| Canonical.GateChecks | hippius-types/src/cbor.rs:58-67 | the gate accepts a decodable input exactly when its value is canonical and the input is that value's shortest encoding |
| Canonical.TrailingBytesRefused | hippius-types/src/cbor.rs:58-67 | no accepted input can be extended to another accepted one |
| Canonical.EqualCanonicalBytes | hippius-types/src/cbor.rs:23-55 | two values have equal canonical bytes exactly when they differ only by the order of map entries reached through arrays and maps |
| CanonicalLoops.CanonicalizeValue | hippius-types/src/cbor.rs:23-50 | the canonicaliser as it runs computes the specified result |
| CanonicalLoops.CanonicalizeArray | hippius-types/src/cbor.rs:41-47 | likewise for the array loop |
| CanonicalLoops.CanonicalizeMap | hippius-types/src/cbor.rs:25-40 | likewise for maps: push with encoded keys, sort, scan, strip |
| CanonicalLoops.FindDuplicate | hippius-types/src/cbor.rs:34-38 | the scan over neighbours finds a repeated key exactly when the sorted list has one |
| CanonicalLoops.SortKeyed | hippius-types/src/cbor.rs:27-33 | sorting by the cached key bytes is sorting by the encoded keys |
| Records.RecordCodec | hippius-types/src/host_attestor.rs:742-811 | for every schema, a body decodes to given field values exactly when they have the field's kinds and the body is their canonical encoding: nested maps, fixed lengths, integer ranges, unknown and missing keys included |
| Records.TakeFieldsExactly | hippius-types/src/host_attestor.rs:761-811 | taking the fields one by one and refusing leftovers succeeds exactly when the map has exactly these keys with values of the right kinds |
| Records.SeparatedSchemasShareNothing | hippius-types/src/host_attestor.rs:442-453 | two schemas told apart by a constant or a key never accept the same body |
| Lookups.BodyRead | hippius-types/src/host_attestor.rs:742-811 | a body decodes to given values exactly when it is a canonical map of as many keys that holds each value under its name |
| RecordLoops.IntoStringMap | hippius-types/src/host_attestor.rs:742-759 | collecting the entries of a map into a dictionary, with or without the duplicate check, gives the same result on canonical input |
| RecordLoops.InsertNeverOverwrites | hippius-types/src/provenance.rs:386-401 | past the canonical gate no unchecked insert overwrites an entry |
| RecordLoops.TakeAll | hippius-types/src/host_attestor.rs:761-811 | the removing decoder computes the specified field values, at every nesting level |
| RecordLoops.TakeOne | hippius-types/src/host_attestor.rs:766-804 | likewise for one field |
| RecordLoops.DecodeBody | hippius-types/src/host_attestor.rs:442-453 | gate, decode, collect, take: the specified record decoder |
| HostAttestor.BeaconCodec | hippius-types/src/host_attestor.rs:343-493 | a beacon body decodes to x exactly when x is valid and the body is its canonical encoding, the nested TCB map included; `HostAttestorReads.BeaconAcceptedExactly` says which x are valid |
| HostAttestor.EnrollmentCodec | hippius-types/src/host_attestor.rs:199-286 | likewise for enrollments |
| HostAttestor.CertCodec | hippius-types/src/host_attestor.rs:591-696 | likewise for host certificates |
| HostAttestor.EnvelopeCodec | hippius-types/src/host_attestor.rs:508-531 | a signed envelope decodes to x exactly when it is x's encoding, with a 64-byte signature |
| HostAttestorReads.BeaconAcceptedExactly | hippius-types/src/host_attestor.rs:343-493 | a body is accepted as the beacon x exactly when it is a canonical map with exactly the named keys holding the fields of x, version 1, non-empty node and boot id, sequence number at least 1, an observation time and a later expiry |
| HostAttestorReads.EnrollmentAcceptedExactly | hippius-types/src/host_attestor.rs:199-286 | likewise for enrollments |
| HostAttestorReads.CertAcceptedExactly | hippius-types/src/host_attestor.rs:591-696 | likewise for host certificates |
| HostAttestorReads.EnvelopeAcceptedExactly | hippius-types/src/host_attestor.rs:508-531 | an envelope is accepted exactly when it is a canonical map of a body and a 64-byte signature and nothing else |
| Provenance.ProvenanceCodec | hippius-types/src/provenance.rs:131-323 | likewise for provenance maps with the nested launch configuration |
| Provenance.Decode | hippius-types/src/provenance.rs:253-323 | the decoder with unchecked inserts computes the same result |
| ArtifactReads.ProvenanceAcceptedExactly | hippius-types/src/provenance.rs:131-323 | a body is accepted as the provenance map x exactly when it is a canonical map with exactly the fifteen keys holding the fields of x, version 1, the one known measurement kind, a location, a build time and a complete launch configuration |
| EvidenceBundle.BundleCodec | hippius-types/src/evidence_bundle.rs:156-328 | likewise for evidence bundles, with the length bounds and the body cap |
| ArtifactReads.BundleAcceptedExactly | hippius-types/src/evidence_bundle.rs:156-328 | a body is accepted as the bundle x exactly when it is within the cap and a canonical map with exactly the named keys holding the fields of x within their length bounds |
| Separation.BodiesNeverCoincide | hippius-types/src/host_attestor.rs:442-453 | no byte string is accepted by two of the beacon, certificate, enrollment, provenance and bundle decoders |
| Heartbeat.EncodeBody | hippius-types/src/heartbeat.rs:212-274 | the push sequence builds the specified body |
| Heartbeat.BodyIsWire | hippius-types/src/heartbeat.rs:212-274 | a valid heartbeat always encodes, and its entries come in one fixed wire order whatever the push order |
| Heartbeat.GracefulExitExtendsV1 | hippius-types/src/heartbeat.rs:184-274 | a version-2 body is the version-1 body of the same fields with the map head and the schema value changed and the flag pair appended |
| HeartbeatReads.HeartbeatReadsBack | hippius-types/src/heartbeat.rs:184-274 | a heartbeat encodes exactly when version, flag, domain and miner id are as required, and its body is then a canonical map with exactly its keys, each holding its own field |
| Heartbeat.TimestampUnix | hippius-types/src/heartbeat.rs:379-395 | for every body, canonical or not: the result is n if and only if the body decodes to a map whose first entry of that name is the 64-bit integer n |
| Heartbeat.HeartbeatTimestamp | hippius-types/src/heartbeat.rs:379-395 | the timestamp of a valid heartbeat's body is that heartbeat's, and no other |
| AuditVm.MapRootFailsExactly | hippius-types/src/audit_vm.rs:66-124 | the receipt root fails exactly when a digest is not 32 bytes or two entries anywhere share vm, lease and sequence number |
| AuditVm.MapRootCommits | hippius-types/src/audit_vm.rs:66-124 | rearranged receipts have the same preimage, and equal preimages come from the same receipts |
| AuditVm.MapRoot | hippius-types/src/audit_vm.rs:66-124 | sort, scan and encode compute the hash of the preimage whose contents `RootContents.MapRootContents` gives, or fail |
| RootContents.MapRootContents | hippius-types/src/audit_vm.rs:66-124 | what the receipt root hashes decodes to one map per receipt, in strictly ascending order of vm, lease and sequence number, each with exactly the four keys and that receipt's own values |
| AuditVm.ComputeCanonicalU128 | hippius-types/src/audit_vm.rs:135-145 | the loop over leading zero bytes computes the specified value |
| AuditVm.U128Minimal | hippius-types/src/audit_vm.rs:135-145 | from 2^64 on the value is tag 2 over 9 to 16 bytes with a nonzero first byte whose big-endian value is n (section 3.4.3 of RFC 8949) |
| AuditVm.U128Injective | hippius-types/src/audit_vm.rs:135-145 | different 128-bit values have different encodings |
| AuditVm.TotalsRootCommits | hippius-types/src/audit_vm.rs:149-179 | the totals root fails exactly on a repeated class, does not depend on order, and determines every class total |
| AuditVm.TotalsRoot | hippius-types/src/audit_vm.rs:149-179 | sort, scan and encode compute the hash of that preimage or fail |
| RootContents.TotalsRootContents | hippius-types/src/audit_vm.rs:149-179 | what the totals root hashes decodes to one map per total, in strictly ascending order of class, each with exactly that class and number |
| Framing.Hasher.PutFramed | hippius-types/src/digest.rs:23-26 | the hasher absorbs the 64-bit length, then the field |
| Framing.UserdataDigest | hippius-types/src/digest.rs:32-51 | the digest is the hash of the framed preimage |
| Framing.UserdataInjective | hippius-types/src/digest.rs:32-51 | the preimage determines all seven fields |
| PreimageReads.UserdataReads | hippius-types/src/digest.rs:32-51 | read from the front, the preimage is the six framed fields in order, the little-endian version, the framed plaintext and nothing else |
| Framing.AuditVmReportData | hippius-types/src/report_data.rs:68-87 | the report data is the nonce followed by the hash of the framed preimage |
| Framing.AuditVmInjective | hippius-types/src/report_data.rs:68-87 | for fields shorter than 2^32 bytes the preimage determines key, node and platform |
| Framing.AuditVmInjectiveExactly | hippius-types/src/report_data.rs:68-87 | a length limit makes the preimage injective if and only if it is at most 2^32 |
| Framing.LongFieldsCollide | hippius-types/src/report_data.rs:68-87 | two different inputs at the limit with the same preimage |
| PreimageReads.AuditVmReads | hippius-types/src/report_data.rs:68-87 | read from the front, the preimage is the framed key, the bare domain, the framed node and the framed platform |
| Framing.BindingsDetermined | hippius-types/src/report_data.rs:104-207 | the telemetry, live and enrolling bindings have the same preimage exactly when they are the same binding of the same fields |
| PreimageReads.BindingReads | hippius-types/src/report_data.rs:104-207 | a byte string is the preimage of a binding exactly when it is a canonical map with exactly the keys and values of that binding |
| ScopePaths.ValidateScopePath | hippius-types/src/vault_broker.rs:115-150 | the stepping validator computes the specified verdict |
| ScopePaths.AcceptedExactly | hippius-types/src/vault_broker.rs:115-150 | a path is accepted exactly when, without leading slashes, it is legal segments ending in tenants, the vm id and the secret's segment |
| ScopePaths.LegalSegmentExactly | hippius-types/src/vault_broker.rs:115-150 | a segment is legal exactly when it is one or more letters, digits, dots, underscores and hyphens, but not one dot or two |
| ScopePaths.PathsSeparate | hippius-types/src/vault_broker.rs:115-150 | accepted paths of different vms or secrets differ even after stripping slashes |
| VaultBroker.ScopesSeparate | hippius-types/src/vault_broker.rs:153-189 | accepted scopes of different vms share no path, and the paths of one scope are pairwise different |
| VaultBroker.LenientIsStrict | hippius-types/src/vault_broker.rs:191-247 | reading a scope leniently gives s without unknown keys exactly when the strict record decoder gives the encoding of s |
| BrokerMessages.MessageDecodes | hippius-types/src/vault_broker.rs:256-465 | decoding a canonical challenge request, redeem request or redeem response gives it back, with or without the lifecycle pair |
| BrokerReads.MessageAcceptedExactly | hippius-types/src/vault_broker.rs:153-465 | a body is accepted as the message x exactly when it is a canonical map of at most 16 KiB whose scope holds the scope of x and is bound to its vm, and which has otherwise exactly the keys of this kind of message, holding the values of x within their bounds |
| BrokerReads.ScopeValidExactly | hippius-types/src/vault_broker.rs:153-189 | a scope is valid exactly when the vm id is 1 to 64 lower-case letters, digits and hyphens, each path ends in tenants, the vm id and its own segment, and lifecycle path and version come together |
| BrokerMessages.ReencodesExactly | hippius-types/src/vault_broker.rs:536-573 | an accepted body is the canonical encoding of what it decodes to if and only if its scope map has no unknown key |
| BrokerMessages.UnknownScopeKeyAccepted | hippius-types/src/vault_broker.rs:226-247 | every valid scope without the lifecycle pair, padded with an unknown text key of more than 17 bytes, gives a canonical body that is not its encoding and decodes to that scope if and only if it is at most 16 KiB long, which it is when its texts and the key take at most 16 KiB less 195 bytes |
| BrokerMessages.AcceptedWithUnknownKey | hippius-types/src/vault_broker.rs:226-247 | one such body, accepted outright |
| RecordSize.CanonicalLength | hippius-types/src/cbor.rs:23-55 | canonicalising does not change the length of an encoding |
| RecordSize.RecordSizeBound | hippius-types/src/vault_broker.rs:469-480 | a record's encoding is at most its texts, byte strings and names with nine bytes for every head |
| HexText.HexAcceptedExactly | pallets/account-profile/src/lib.rs:513-542 | hex text is accepted as b exactly when, without a leading 0x and lower-cased, it is the non-empty b spelled two digits a byte |
| HexText.HexRoundTrip | pallets/account-profile/src/lib.rs:513-542 | spelling and reading back, with or without the prefix, is the identity |
| HexText.LowercaseIdempotent | pallets/account-profile/src/lib.rs:503-507 | lower-casing twice is lower-casing once |
| AccountProfile.NamesUnique | pallets/account-profile/src/lib.rs:226-270 | over every run the two username maps are inverse to each other on lower-case names, every name given is still held, and none is given twice in any mixture of cases |
| AccountProfile.NamesNeverChange | pallets/account-profile/src/lib.rs:254-265 | a name held after some prefix of a run is held by the same account, in both maps, after the whole run |
| AccountProfile.EvictSize | pallets/account-profile/src/lib.rs:455-461 | eviction ends with room for one more entry and drops no more than it has to |
| AccountProfile.RunKeepsStore | pallets/account-profile/src/lib.rs:454-472 | over every run the store holds exactly the hashes accepted and not evicted since, at most 1000 of them, and nothing is evicted before more than 1000 acceptances |
| AccountProfile.ReacceptedOnlyIfEvicted | pallets/account-profile/src/lib.rs:454-472 | a challenge is accepted again only if its entry was evicted in between |
| ChallengeReplay.ReplayAcceptedExactly | pallets/account-profile/src/lib.rs:454-472 | after every run, a challenge still stored is accepted again if and only if it passes every other check, the store is full and the iteration yields its own entry first |
| ChallengeReplay.EvictsOldestExactly | pallets/account-profile/src/lib.rs:455-461 | an accepted call drops at most one entry, the first the iteration yields, so it drops only the oldest if and only if there is room or the iteration yields the oldest first |
| ChallengeReplay.OldestFirstSpaces | pallets/account-profile/src/lib.rs:455-461 | in a run whose every eviction took the oldest entry, two acceptances of one challenge have at least 999 others between them |
| ChallengeReplay.ReplayedAtOnce | pallets/account-profile/src/lib.rs:454-472 | after any thousand acceptances of different challenges, the newest is accepted again at once if the iteration yields it first, although it is the youngest |
| ChallengeReplay.AcceptedTwice | pallets/account-profile/src/lib.rs:454-472 | a run in which a challenge that has not expired is accepted twice with nothing accepted in between |
| AccountProfile.FirstThousandDistinct | pallets/account-profile/src/lib.rs:454-472 | while at most 1000 challenges have been accepted, they are pairwise different and all still stored |
| AccountProfile.ChallengeReadsPrefix | pallets/account-profile/src/lib.rs:424-431 | a challenge is read off exactly the byte strings that start with its encoding; what follows is ignored |
| AccountProfile.ProfileAcceptedExactly | pallets/account-profile/src/lib.rs:400-472 | a profile is accepted if and only if the node is registered and the request starts with an unexpired challenge of this domain, chain, caller and public key, spells that key in hex, is signed by it, and its hash is not stored once there is room |
| ProfileHistory.HasProfileExactly | pallets/account-profile/src/lib.rs:474-476 | after every run an account has a profile exactly when a request of its own was accepted |
| ProfileHistory.ProfileIsLatest | pallets/account-profile/src/lib.rs:474-476 | it holds the node id and the encryption key of the latest accepted request of that account, whatever else was called |
| ProfileHistory.RunExpiries | pallets/account-profile/src/lib.rs:471-472 | after every run each stored hash carries the expiry of the challenge it was last stored for |
| ProfileHistory.UsernameAcceptedExactly | pallets/account-profile/src/lib.rs:226-270 | after every run a username is accepted exactly from a registered validator, for an account no accepted call has named, and if no accepted call gave the same name in any mixture of case |
| ProfileHistory.ProfileRefusedExactly | pallets/account-profile/src/lib.rs:400-472 | a profile request is refused if and only if the reason of one of its errors is true, and with an error whose reason is true |
| AccountProfile.ReachedStep | pallets/account-profile/src/lib.rs:142-143 | one more call keeps a state one that some run leads to |
| AccountProfilePallet.Storage.Facts | pallets/account-profile/src/lib.rs:49-82 | inverse and lasting usernames and the store's invariant hold of storage after any sequence of calls |
| AccountProfilePallet.Storage.constructor | pallets/account-profile/src/lib.rs:49-82 | storage starts empty |
| AccountProfilePallet.Storage.SetUsername | pallets/account-profile/src/lib.rs:226-270 | both maps change together or not at all, as specified, and stay inverse to each other |
| AccountProfilePallet.Storage.EvictUsed | pallets/account-profile/src/lib.rs:455-461 | the eviction loop terminates below capacity with the specified store |
| AccountProfilePallet.Storage.HandleProfile | pallets/account-profile/src/lib.rs:400-481 | an accepted call stores the node id and encryption key of the request for its caller and marks the challenge used; error and new storage are those of the specification, a failed call undoing the eviction it made |
| AccountProfilePallet.Storage.SetAccountProfile | pallets/account-profile/src/lib.rs:400-481 | likewise, and storage stays reachable, the store stays within 1000, and a challenge still stored is accepted only from a full store that yields its own entry first |

## Left out

- The bridge's `set_code` message, its query messages, and the audit-trail arguments that only reach emitted events.
- Subtensor, proxy and chain-extension internals: the answer to each request is a parameter, and solvency and payment state what they assume of it.
- `BridgeContract.Contract`: `pause` and `unpause` are one method with a flag.
- Hash and signature internals (SHA-256, Blake2, Ed25519, HPKE): function parameters.
- CBOR floats, indefinite lengths, simple values other than booleans and null, and the recursion limit and bignum special cases of the decoder library.
- Error kinds and messages of the codecs: a refused body is just refused.
- The order in which the codecs' source lists its fields: schemas are written in wire order, since canonical bytes do not depend on it (`Canonical.EqualCanonicalBytes`).
- The broker's challenge response, `ServedDeliveryAggregate::canonical` and the other wire types of the same shape (live attestation, audit-VM certificate, challenges, graceful exit, VM progress, stopped, telemetry certificate, release, served receipt): further instances of `Records.RecordCodec`.
- The pallet's public and private items, data and message keys and `force_update_account_profile`: single inserts behind the same registration check.
- Registration, proxy lookup and the Hippius side of the bridge: their sources are not part of this model.
- Weight submission scripts, node, RPC and chain-specification wiring.
