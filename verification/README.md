# Verified models of the settlement, wallet, schema, matching and naming cores

This project models the parts of the platform whose correctness depends on more
than one function at a time, and proves properties of the models for all inputs
and all runs. It needs only Dafny: `dafny verify dfyconfig.toml` checks it.

Each component is written twice where the original changes state: a pure
function or step relation that says what a request does, and a class whose
methods perform the same statements on rows that change in place. The methods'
postconditions equate the two, and the lemmas about runs are stated on the
functions. Concurrency is modelled as the interleaving of separate statements or
transactions, never as an assumption that requests take turns. Automatic
induction is switched off on every lemma, so each proof is the one written down.

## What is modelled

**Aethyr Ledger.** `Merkle` is the layer loop of `merkle_root` with its tree,
its inclusion proofs and what a root commits to; SHA-256 of a pair is an
arbitrary function, and the binding theorems return an explicit collision.
`Fees` is the fee arithmetic of both money services in wrapping 64-bit integers.
`Ledger` and `LedgerService` are the transfer, fund, reward, mint and burn
handlers over account rows, the supply row and the event log. `Sealer` and
`SealerService` are the block sealer, split into its separate statements and run
by any number of sealers with settlements between any two. `OutboxLocks` is the
lock order of the settlement trigger.

**Ain Soph.** `Wallet` and `WalletService` are the four idempotent double-entry
transactions, with the fee account possibly a party to any of them.

**Schema Registry.** `SchemaCompat` is the four-rule compatibility check and its
behaviour along chains of versions. `SchemaMeaning` gives schemas the meaning of
JSON Schema Validation draft-07 (sections 6.1.1, 6.1.2 and 6.5.3), with properties
nested to any depth; `SchemaContainment` decides exactly when every value one
schema accepts is accepted by another; `SchemaGuarantee` proves what a compatible
verdict is worth.

**Content scan.** `AudioMatch` is the sliding bit comparison of audio
fingerprints, `FirstMax` the keep-the-best loop shared by the searches,
`BannedScan` the banned-registry scan with its bounded cache, and `DuplicateScan`
the search of stored fingerprints that checks a candidate's usability late.

**Elohim Veni and the outbox drain.** `KeyRegistry` and `KeyRegistryService` are
the key upserts, their triggers and the backfill. `OutboxOrder` lets registering
transactions overlap, wait and roll back. `OutboxDrain` is the drain against the
naming plane, with faults, lost answers, quarantine, other writers and revoked
names; `OutboxWhole` runs the two together; `OutboxStarvation` is a run that shows
what the drain's scheduling can cost.

**Alexandria.** `Lineage` is the ancestor path and depth of a title,
`TitleCount` the per-author count kept by separate statements, and
`TitleService` the handlers.

## What turned out not to hold as documented

- *Strict id order of the outbox* (`elohim-veni/README.md:132-137`,
  `libs/manhattan-outbox/src/lib.rs:13-34`). The drain's read skips rows that are
  not due, so rows behind one that was held or sent back are delivered before it.
  `OutboxDrain.OvertakesExactlyBackedOff` gives the exact condition,
  `OutboxDrain.EdgeSentBackExactly` when an edge misses an end,
  `OutboxDrain.InOrderEdgesFindTheirEnds` what order would buy, and
  `OutboxStarvation.EdgeQuarantinedBehindAHeldNode` a run in which an edge is
  quarantined although the row it needs was never refused or counted. No dangling
  edge follows: `OutboxWhole.WholeRunDeliversTruth` holds of every run.
- *Conservation of the money supply.* It fails exactly for a transfer whose fee
  comes out negative, its product having left 64 bits, and that no guard stops:
  `Ledger.StepConservesIff`, `Ledger.ConservationCanFail`. Below a stated supply,
  or for amounts up to (2^63 - 1) / 300, it always holds: `Ledger.RunConserves`.
- *Compatible schemas.* Old payloads stay valid if and only if every field kept
  still accepts the values it did, what is required was required or has a default,
  and the defaults that payloads need are valid (`SchemaGuarantee.GuaranteeExactly`,
  for any two schemas without an enum on the payload itself). The four rules secure
  the second of these only. For fields of one type name they leave open just the
  enum put on a field that had none (`SchemaGuarantee.PlainVerdictExactly`). They
  compare neither lists of types (`SchemaGuarantee.TypeListChangeExactly` says
  which changes of a list are harmful) nor anything below a field
  (`SchemaGuarantee.NestedRequiredIsNotCompared`).
- *`event_count`.* With one sealer it is at most the number of Merkle leaves exactly
  when the read of the block's ids succeeded: a failed read is swallowed and leaves
  no leaves. With two sealers it can also count events that the other one took:
  `Sealer.EventCountLaw`, `Sealer.SecondAssignerGetsNothing`. The comment at
  `aethyr-ledger/src/db.rs:59` calls the root an XOR-fold; the code builds the
  Merkle tree modelled here.
- *Every event is sealed.* Events assigned by a sealing that then fails, or whose
  block number another sealer takes first, are in no block for good:
  `Sealer.StrandsExactly`, `Sealer.StrandedForGood`.
- *`title_count`.* Once every statement has been carried out, it equals the live
  titles if and only if at no time more lowerings than additions had been
  (`TitleCount.SettledCountIsLiveExactly`; `TitleCount.CountIsLiveExactly` covers
  failed and owed statements). Requests served one at a time keep it exact; two
  that overlap can leave it too high for good (`TitleCount.OverlapLeavesAGhost`).
- *A lineage is the whole chain* exactly when no query for a parent with ancestors
  of its own failed, because a failed query is taken for a missing parent:
  `Lineage.LineageIsChainExactly`. Depth is exact up to 32767 ancestors.

## Model

| member | source | states |
|---|---|---|
| Merkle.MerkleRoot | aethyr-ledger/src/main.rs:803-825 | the loop that evens out and halves the layer in place returns the root of the tree defined from the top |
| Merkle.HeightIsCeilingLog2 | aethyr-ledger/src/main.rs:807-825 | the number of passes is the ceiling of the binary logarithm of the leaf count |
| Merkle.PathFoldsToRoot | aethyr-ledger/src/main.rs:725-745 | every index has a sibling path of exactly that many hashes, and it folds the leaf to the root |
| Merkle.FoldCollision | aethyr-ledger/src/main.rs:827-833 | two different openings of one position with one value contain two inputs that collide under the pair hash |
| Merkle.AcceptedProofIsGenuine | aethyr-ledger/src/main.rs:725-745 | a proof of the right length that the root accepts names the stored leaf by the stored path, or exhibits a collision |
| Merkle.SameLengthRootBinds | aethyr-ledger/src/main.rs:803-833 | two different leaf lists of one length with one root exhibit a collision, through every duplicated last node |
| Merkle.RepeatedLastLeafSharesRoot | aethyr-ledger/src/main.rs:815-819 | an odd list longer than one and the same list with its last leaf repeated share a root, whatever the hash |
| Merkle.RootsEqualExactly | aethyr-ledger/src/main.rs:803-833 | for a collision-free hash, non-empty lists of any lengths and leaves share a root if and only if the taller tree, cut at the other's height, fills its positions as the other's leaves do |
| Merkle.SeparatedRootsEqualExactly | aethyr-ledger/src/main.rs:803-833 | where no leaf is itself the digest of a pair, if and only if they fill the positions of trees of one height alike |
| Merkle.EmptyRootExactly | aethyr-ledger/src/main.rs:807-813 | if zero is no digest of a pair, only the lone zero leaf shares the empty list's root |
| Merkle.SameFillingSameLength | aethyr-ledger/src/main.rs:803-833 | at one length that condition is equality of the lists |
| Fees.FeeIsExactIff | aethyr-ledger/src/models.rs:172-175 | the computed fee is the scheduled rate rounded down if and only if the product fits 64 bits, in particular up to (2^63 - 1) / 300 |
| Fees.FeeForExactly | aethyr-ledger/src/models.rs:172-175 | for every amount and rate the fee is the product reduced to 64 bits, divided by 10 000 toward zero |
| Fees.NetIsPositive | ain-soph/src/models.rs:11-20 | while the fee is exact it is not negative and at least one unit is left |
| Fees.FeeNeverOverflowsTheSum | aethyr-ledger/src/models.rs:172-175 | for every positive 64-bit amount neither amount plus fee nor amount minus fee leaves the positive range, even when the product wrapped |
| Fees.SplittingSavesLittle | ain-soph/src/models.rs:17-20 | splitting a payment into k parts lowers the total scheduled fee by between 0 and k - 1 units |
| Fees.SplittingComputedFees | ain-soph/src/models.rs:17-20 | so it does the fees computed in 64 bits, for positive parts of any payment whose own product fits |
| Fees.SplittingBoundIsTight | aethyr-ledger/src/models.rs:9-14 | a hundred payments of 33 units save exactly 99 units of transfer fee |
| Ledger.TransferMovesExactly | aethyr-ledger/src/main.rs:352-481 | when a transfer posts, and what every identity's balance becomes, with the treasury possibly sender or receiver |
| Ledger.TransferRecordsExactly | aethyr-ledger/src/main.rs:352-481 | a posted transfer appends one event with the request's kind, parties, amount and key, the fee at 1, 1.5 or 3 per cent and the sender's next number; a refusal names the first guard that failed and appends nothing |
| Ledger.TransferRowExactly | aethyr-ledger/src/main.rs:425-461 | every column of every row after a transfer, under every aliasing of sender, receiver and treasury |
| Ledger.MintMovesExactly | aethyr-ledger/src/main.rs:870-919 | when a mint posts, and that exactly one balance and the total, circulating and minted supply grow by the amount |
| Ledger.MintWritesExactly | aethyr-ledger/src/main.rs:870-919 | the event a mint appends, and every column of every row |
| Ledger.BurnMovesExactly | aethyr-ledger/src/main.rs:549-591 | when the burn's transaction posts on what the account holds by then, and what it takes from one balance and from total and circulating supply |
| Ledger.BurnWritesExactly | aethyr-ledger/src/main.rs:549-591 | the burn's event with its key, and every column of every row |
| Ledger.BurnReadExactly | aethyr-ledger/src/main.rs:531-547 | a burn goes ahead exactly on a balance that covers it, the whole balance included |
| Ledger.StepRecordsItsRequest | aethyr-ledger/src/main.rs:280-919 | a step leaves the log alone or appends the one event that records its own request |
| Ledger.StepPostsExactly | aethyr-ledger/src/main.rs:280-919 | when each handler posts, which rows it opens, and which burns still wait for their transaction |
| Ledger.KeyPostsOnce | aethyr-ledger/src/db.rs:44 | along every run, once a transfer or burn with a key has posted, no transfer or burn with that key posts or moves anything |
| Ledger.FundedAmountIsExact | aethyr-ledger/src/main.rs:302-307 | funding mints a hundred micro-AET for each cent left after the 2.5% fee if and only if the fee's product fits 64 bits |
| Ledger.PostingKeepsBooks | aethyr-ledger/src/main.rs:412-481 | appending an event and changing rows as it says keeps every row the replay of the log |
| Ledger.TransferKeepsBooks | aethyr-ledger/src/main.rs:352-481 | a transfer, posted or refused, keeps the books |
| Ledger.MintKeepsBooks | aethyr-ledger/src/main.rs:870-919 | so does a mint |
| Ledger.BurnKeepsBooks | aethyr-ledger/src/main.rs:549-591 | so does a burn, however old its balance read |
| Ledger.RunKeepsBooks | aethyr-ledger/src/main.rs:280-919 | in every reachable state each row equals the replay of the log, balance = earned - spent >= 0, keys are unique, and each sender's transfers are numbered 1, 2, 3, … |
| Ledger.GenesisIsSound | aethyr-ledger/src/db.rs:328-341 | what migration leaves satisfies the invariant and conservation |
| Ledger.TransferMovesTotal | aethyr-ledger/src/main.rs:412-481 | a transfer leaves the sum of balances alone unless its fee is negative, and then by how much it does not |
| Ledger.MintConserves | aethyr-ledger/src/main.rs:870-919 | a mint keeps sum of balances = circulating = total = minted - burned |
| Ledger.BurnConserves | aethyr-ledger/src/main.rs:549-591 | so does a burn, and the GREATEST(0, …) clamps do nothing |
| Ledger.StepConservesIff | aethyr-ledger/src/main.rs:352-919 | a step conserves if and only if it is not a transfer with a negative fee that its guards (kind, amount, parties, key, balance, database) let through |
| Ledger.NoDistortionBelowSafeSupply | aethyr-ledger/src/main.rs:398-420 | below the safe supply no such transfer can post |
| Ledger.NoDistortionForExactAmounts | aethyr-ledger/src/models.rs:172-175 | nor for any amount up to (2^63 - 1) / 300 |
| Ledger.RunConserves | aethyr-ledger/src/main.rs:280-919 | conservation and the invariant hold at the end of every run of such steps, with burn's read interleaved with other writers |
| Ledger.ConservationCanFail | aethyr-ledger/src/main.rs:398-481 | forty billion AET minted and transferred break it |
| LedgerService.LedgerDb.constructor | aethyr-ledger/src/db.rs:328-341 | the migrated database is the genesis state |
| LedgerService.LedgerDb.EnsureAccount | aethyr-ledger/src/db.rs:343-356 | adds an empty row for a new identity and nothing for a known one |
| LedgerService.LedgerDb.GetBalance | aethyr-ledger/src/db.rs:358-366 | the row's balance, zero without a row |
| LedgerService.LedgerDb.Transfer | aethyr-ledger/src/main.rs:352-481 | the handler's checks and transaction do what the ledger function says and keep the books |
| LedgerService.LedgerDb.TransferTransaction | aethyr-ledger/src/main.rs:412-481 | so does the transaction alone, with its rollbacks |
| LedgerService.LedgerDb.MintInternal | aethyr-ledger/src/main.rs:870-919 | the mint's statements, rolled back as one |
| LedgerService.LedgerDb.BurnTransaction | aethyr-ledger/src/main.rs:549-591 | the burn's statements, guarded by the balance constraint; the books are kept for an identity with a row |
| LedgerService.LedgerDb.Burn | aethyr-ledger/src/main.rs:531-591 | a balance below the amount refuses, one that covers it, the whole balance included, runs the transaction |
| LedgerService.LedgerDb.Fund | aethyr-ledger/src/main.rs:280-345 | refusals, conversion and mint |
| Sealer.StepKeepsInv | aethyr-ledger/src/main.rs:692-770 | every statement of every sealer, and every settlement between, keeps the sealing invariant |
| Sealer.RunKeepsInv | aethyr-ledger/src/main.rs:692-770 | so does every run |
| Sealer.ChainLinkedExactly | aethyr-ledger/src/db.rs:368-385 | block numbers are contiguous from 1 and each prev_hash is the previous block's hash, exactly when its read succeeded |
| Sealer.VolumesAreConserved | aethyr-ledger/src/main.rs:714-723 | stored volumes and fees plus those of events in no inserted block equal the whole log's |
| Sealer.EntriesAssigned | aethyr-ledger/src/main.rs:705-712 | assignment moves exactly the pending entries into the new block and touches no other |
| Sealer.EventStaysInItsBlock | aethyr-ledger/src/main.rs:705-712 | no event leaves the log, changes, or is ever in a second block |
| Sealer.EventCountLaw | aethyr-ledger/src/main.rs:692-770 | event_count is at most the number of leaves if and only if the ids were read and no more was taken than landed; with one sealer if and only if they were read, with equality exactly when besides nothing landed in between |
| Sealer.EventCountWraps | aethyr-ledger/src/main.rs:760-770 | event_count is the count reduced to 32 bits, possibly negative |
| Sealer.FirstAssignerTakesAll | aethyr-ledger/src/main.rs:705-712 | of two sealers that counted, the first to assign leaves the other nothing |
| Sealer.SecondAssignerGetsNothing | aethyr-ledger/src/main.rs:692-712 | and the second keeps its count over a block without events |
| Sealer.UndisturbedSealing | aethyr-ledger/src/main.rs:692-770 | the seven statements of a sealer that nothing comes between leave the events and the row that the handler read from top to bottom leaves |
| Sealer.OldestFirst | aethyr-ledger/src/main.rs:728-734 | of two leaves the earlier is of an older event, or of one as old with an id no larger |
| Sealer.RankIsPlace | aethyr-ledger/src/main.rs:728-734 | with distinct ids the event with exactly k others before it by time and id stands at place k |
| Sealer.SealedLeavesExactly | aethyr-ledger/src/main.rs:725-745 | a stored root is taken over one leaf per event of its block, each at the place given by how many are before it by time and id |
| Sealer.RootIgnoresRowOrder | aethyr-ledger/src/main.rs:725-745 | the root recomputed from the events in any order is the stored one |
| Sealer.SealedEventIsProvable | aethyr-ledger/src/main.rs:725-745 | every event of a sealed block whose ids were read has an inclusion proof of logarithmic length against the stored root, at its place by time and id |
| Sealer.EventIsProvableExactly | aethyr-ledger/src/main.rs:725-745 | an event of a sealed block has such a proof if and only if the ids were read, or its id hashes to the zeros of a failed read |
| Sealer.StrandsExactly | aethyr-ledger/src/main.rs:705-770 | a step that ends a sealing after its assignment strands the block's events exactly when it took some and fails or finds its number taken |
| Sealer.StrandedForGood | aethyr-ledger/src/main.rs:692-712 | stranded events are in no block in any later state |
| SealerService.ChainDb.CountPending | aethyr-ledger/src/main.rs:693-701 | the count of events in no block |
| SealerService.ChainDb.NextBlockNumber | aethyr-ledger/src/db.rs:368-374 | one more than the number of blocks, 1 when the query fails |
| SealerService.ChainDb.PrevBlockHash | aethyr-ledger/src/db.rs:376-385 | the last block's hash, zeros without one or when the query fails |
| SealerService.ChainDb.AssignPending | aethyr-ledger/src/main.rs:707-712 | every pending row gets the block, every other row stays |
| SealerService.ChainDb.BlockStats | aethyr-ledger/src/main.rs:714-721 | the sums over the block's events |
| SealerService.ChainDb.EventsRoot | aethyr-ledger/src/main.rs:725-745 | the Merkle root over the ordered ids, and its number of leaves |
| SealerService.ChainDb.InsertBlock | aethyr-ledger/src/main.rs:755-770 | the block is appended unless its number is taken, and numbers stay contiguous |
| SealerService.ChainDb.SealBlock | aethyr-ledger/src/main.rs:692-770 | what one undisturbed sealing leaves, for every combination of swallowed read errors |
| OutboxLocks.TriggerKeysAreSorted | aethyr-ledger/src/db.rs:219-291 | the trigger enqueues exactly the counterparties that are people, in ascending order |
| OutboxLocks.OpenedIsSound | aethyr-ledger/src/db.rs:278-291 | any number of freshly opened settlements over any identities start in the invariant |
| OutboxLocks.StepKeepsInv | aethyr-ledger/src/db.rs:278-291 | stepping or aborting any transaction keeps its remaining keys above those it holds |
| OutboxLocks.NoCycle | aethyr-ledger/src/db.rs:266-290 | the wait-for graph of any number of settlements is acyclic |
| OutboxLocks.SomebodyGoesOn | aethyr-ledger/src/db.rs:266-290 | while any transaction is unfinished some transaction can step |
| OutboxLocks.EveryScheduleFinishes | aethyr-ledger/src/db.rs:266-290 | every schedule, rollbacks included, is bounded, and one after which nobody can step has finished everybody |
| OutboxLocks.NobodyWaitsForTheTable | aethyr-ledger/src/db.rs:219-240 | a key already in the table makes no settlement wait |
| OutboxLocks.CommittedInTheEnd | aethyr-ledger/src/db.rs:266-290 | when all have ended, the table holds exactly what was there and the keys of every transaction not rolled back |
| OutboxLocks.SettlementsRegisterTheirParties | aethyr-ledger/src/db.rs:219-291 | so any number of settlements in any order register exactly the people among the parties of those not rolled back |
| OutboxLocks.SenderFirstDeadlocks | aethyr-ledger/src/db.rs:266-274 | enqueueing sender before receiver, two opposite transfers deadlock |
| Wallet.RunKeepsInv | ain-soph/src/handlers.rs:258-554 | in every reachable state each balance is its credits minus its debits and not negative, and balances add up to gross deposits minus net withdrawals |
| Wallet.ApplyKeepsInv | ain-soph/src/handlers.rs:258-554 | every request keeps that, replayed, refused or committed |
| Wallet.EmptyIsSound | ain-soph/src/db.rs:12-45 | the empty database satisfies the invariant |
| Wallet.DebitsMatchCredits | ain-soph/src/db.rs:344-362 | every transfer and tip has debits equal to credits, a deposit credits its gross, a withdrawal debits its amount and credits its fee |
| Wallet.CommitMovesExactly | ain-soph/src/handlers.rs:364-383 | who gains and who pays when a request commits, under every aliasing of payer, payee and fee account |
| Wallet.RequestServedExactly | ain-soph/src/handlers.rs:258-554 | for all four requests: when each is rejected, commits, replays or fails and with which answer, at which fee rate and under which key, and the row, entries and balances a commit writes |
| Wallet.KeylessTipIsNew | ain-soph/src/handlers.rs:433-441 | a tip without a key whose id is new is never answered with an earlier payment, and commits exactly when its fee did not wrap, the tipper holds the amount and the database accepts it |
| Wallet.TipUnitsRound | ain-soph/src/handlers.rs:428-432 | the amount of a tip is the nearest hundredth of an AET, a half upwards, saturating at the 64-bit maximum |
| Wallet.EntryChecksNeverFail | ain-soph/src/db.rs:16-45 | a sound row violates no CHECK constraint, its own or its entries' |
| Wallet.RequestedRowIsSound | ain-soph/src/handlers.rs:278-290 | a row a request asks for is sound or refused, whatever the amount, and never refused up to (2^63 - 1) / 300 |
| Wallet.SettlingAddsInflow | ain-soph/src/handlers.rs:292-301 | settling changes the total by a deposit's gross or a withdrawal's net and otherwise not |
| Wallet.RetriesAreInvisible | ain-soph/src/handlers.rs:278-290 | retries anywhere in a run change neither its final accounts, transactions and entries nor anybody else's answer |
| Wallet.RepeatAnswersTheFirst | ain-soph/src/handlers.rs:877-898 | a repeat with the same body and key, any time later, returns the first transaction's id, amounts and fee and changes nothing |
| Wallet.CommittedKeyStays | ain-soph/src/db.rs:16-45 | a committed key keeps its transaction in every later state |
| Wallet.RefusalLeavesNoTrace | ain-soph/src/handlers.rs:368-372 | a refused request changes nothing, and one refused for its balance leaves its key unused |
| Wallet.RefusedKeyStaysUsable | ain-soph/src/handlers.rs:368-372 | that key commits as soon as the payer can pay |
| WalletService.WalletDb.FindByKey | ain-soph/src/handlers.rs:877-884 | the scan returns the first transaction with the key |
| WalletService.WalletDb.InsertTransaction | ain-soph/src/handlers.rs:349-362 | when the insert is refused, when it conflicts, and what it adds |
| WalletService.WalletDb.Bring | ain-soph/src/handlers.rs:276-303 | deposit's transaction |
| WalletService.WalletDb.Deposit | ain-soph/src/handlers.rs:258-316 | deposit does what the wallet function says and keeps the invariant |
| WalletService.WalletDb.MoveAndPost | ain-soph/src/handlers.rs:374-381 | the six writes of a payment in their order, under every aliasing |
| WalletService.WalletDb.Pay | ain-soph/src/handlers.rs:347-383 | the transaction of transfer and tip, with its rollbacks |
| WalletService.WalletDb.Transfer | ain-soph/src/handlers.rs:321-383 | transfer does what the wallet function says and keeps the invariant |
| WalletService.WalletDb.Tip | ain-soph/src/handlers.rs:410-479 | so does tip, keyed by its own id when it has no key |
| WalletService.WalletDb.CashOut | ain-soph/src/handlers.rs:522-554 | withdraw's transaction |
| WalletService.WalletDb.Withdraw | ain-soph/src/handlers.rs:504-554 | withdraw does what the wallet function says and keeps the invariant |
| SchemaCompat.CheckCompatibility | aethyr-schema-registry/src/validator.rs:47-137 | every violation, read off the keywords of the two schemas, is reported and nothing else, and the verdict is compatible exactly when there is none |
| SchemaCompat.ViolationsExactly | aethyr-schema-registry/src/validator.rs:55-130 | what each report says of the two schemas, read off their properties, required, type, enum and default keywords |
| SchemaCompat.RequiredExactly | aethyr-schema-registry/src/validator.rs:162-172 | a name is required exactly when the required keyword is an array that contains it |
| SchemaCompat.RemovedFields | aethyr-schema-registry/src/validator.rs:55-63 | rule 1 reports exactly the removed fields |
| SchemaCompat.ChangedTypes | aethyr-schema-registry/src/validator.rs:65-77 | rule 2 reports exactly the incompatible type changes |
| SchemaCompat.RequiredFields | aethyr-schema-registry/src/validator.rs:79-104 | rule 3 reports exactly the newly required old fields and new required fields without default |
| SchemaCompat.RemovedEnumValues | aethyr-schema-registry/src/validator.rs:106-130 | rule 4 reports exactly the enum values removed |
| SchemaCompat.CompatibleMeansNoViolation | aethyr-schema-registry/src/validator.rs:132-136 | the four rules hold if and only if no violation exists |
| SchemaCompat.ChainEndsCompatibleExactly | aethyr-schema-registry/src/validator.rs:55-130 | along any compatible chain the ends are compatible if and only if enums at both ends agree and what is newly required has a default at the end |
| SchemaCompat.ChainComposes | aethyr-schema-registry/src/validator.rs:55-130 | they are when versions between keep those enums and defaults |
| SchemaCompat.DroppedEnumBreaksTheChain | aethyr-schema-registry/src/validator.rs:106-130 | without the first condition composition fails |
| SchemaCompat.DroppedDefaultBreaksTheChain | aethyr-schema-registry/src/validator.rs:89-103 | without the second it fails |
| SchemaMeaning.ValidityIgnoresSpelling | aethyr-schema-registry/src/validator.rs:139-150 | no schema tells an integer from a float of the same value, at any depth |
| SchemaMeaning.NormalExactly | aethyr-schema-registry/src/validator.rs:139-150 | normal forms agree exactly on equal instances, numbers compared by value at any depth |
| SchemaContainment.SatisfiableExactly | aethyr-schema-registry/src/validator.rs:139-150 | whether a schema accepts anything is decided exactly |
| SchemaContainment.ContainedExactly | aethyr-schema-registry/src/validator.rs:139-150 | for any two schemas over type, enum, required and properties, the decision holds if and only if every value the first accepts is accepted by the second |
| SchemaGuarantee.CompatiblePayloadStaysValid | aethyr-schema-registry/src/validator.rs:47-137 | a payload valid under a compatible version whose fields are contained, once the defaults are filled in, is valid under the new one and has only fields it declares |
| SchemaGuarantee.GuaranteeExactly | aethyr-schema-registry/src/validator.rs:47-137 | for any two object schemas without an enum on the payload itself, all old payloads stay valid if and only if there are none, or the new schema admits objects, contains every kept field, requires nothing new without a default, and needs no invalid default |
| SchemaGuarantee.CompatibleVerdictExactly | aethyr-schema-registry/src/validator.rs:47-137 | with valid defaults and some old payload, a compatible verdict guarantees them if and only if objects are admitted and every kept field is contained |
| SchemaGuarantee.TypeRuleExactly | aethyr-schema-registry/src/validator.rs:181-191 | on the standard type names rule 2 lets a change pass if and only if every value of the old type is one of the new |
| SchemaGuarantee.PlainFieldContainedExactly | aethyr-schema-registry/src/validator.rs:65-130 | for fields of one standard type name that rules 2 and 4 accept, containment holds if and only if no enum is put on a field that had none without listing every value of its type |
| SchemaGuarantee.PlainVerdictExactly | aethyr-schema-registry/src/validator.rs:106-130 | for object schemas of such fields, with valid defaults and some old payload, so does the guarantee |
| SchemaGuarantee.PayloadSurvivesChain | aethyr-schema-registry/src/validator.rs:47-137 | a payload of the first version survives a chain of any length whose steps are compatible and meet the exact condition |
| SchemaGuarantee.TypeListChangeExactly | aethyr-schema-registry/src/validator.rs:174-191 | any change from one list of types to another is reported compatible, and keeps old payloads valid if and only if the new list admits every kind of value the old one did |
| SchemaGuarantee.TypeListsAreNotCompared | aethyr-schema-registry/src/validator.rs:174-179 | from strings alone to null alone is compatible and breaks old payloads |
| SchemaGuarantee.NestedRequiredIsNotCompared | aethyr-schema-registry/src/validator.rs:79-104 | an object field that comes to require a field is compatible and breaks old payloads |
| AudioMatch.AudioSimilarityFrames | content-scan/scanner.py:621-639 | the two sliding loops compute the best fraction of equal bits |
| AudioMatch.SimilarityIsBest | content-scan/scanner.py:621-639 | the score is attained by an allowed alignment and no allowed alignment scores higher |
| AudioMatch.SimilarityIsSymmetric | content-scan/scanner.py:621-639 | comparing the other way round gives the same score |
| AudioMatch.PerfectExactlyWhenAligned | content-scan/scanner.py:621-639 | the score lies in [0, 1] and is 1 exactly when some allowed alignment agrees on every compared frame |
| AudioMatch.TrimmedCopyIsPerfect | content-scan/scanner.py:482-502 | a copy with up to 320 leading frames removed and at least 64 left scores 1 |
| AudioMatch.BitDiffFacts | content-scan/scanner.py:630-638 | two frames differ in 0 to 32 bits, in none exactly when equal, and symmetrically |
| AudioMatch.BitDiffExactly | content-scan/scanner.py:634-637 | xor and bit count give the number of the 32 bits in which two frames differ |
| AudioMatch.MismatchExactly | content-scan/scanner.py:634-637 | a window's mismatch is the number of positions, frame and bit, at which the two sides differ |
| AudioMatch.SimilarityExactly | content-scan/scanner.py:621-639 | in bits alone: no score below 64 shared frames, otherwise the largest share of equal bits over the first 256 frames or the shorter side at any slide of either by up to 320 frames |
| AudioMatch.UsableExactly | content-scan/scanner.py:591-618 | usable means at least 64 frames and a mean 4p(1-p) over the 32 bits of at least one half, p being the share of frames with the bit set |
| AudioMatch.UsableMeansFramesDiffer | content-scan/scanner.py:591-618 | equivalently, at least 64 frames whose pairs differ in at least 4n² bits altogether |
| AudioMatch.UsablePairHasScore | content-scan/scanner.py:603-628 | two usable fingerprints always have a score |
| AudioMatch.ConstantIsUnusable | content-scan/scanner.py:591-618 | one frame repeated, silence or a steady tone, is never usable |
| FirstMax.BestIndexIsFirstMax | content-scan/server.py:193-205 | the keep-the-best loop ends at the first maximum, or at nothing when nothing has a score |
| FirstMax.AgreeingScansReportAlike | content-scan/server.py:193-212 | two scans that agree from a cut upwards report the same first maximum or both nothing |
| BannedScan.EntryCache.BannedAudioEntry | content-scan/scanner.py:816-834 | the entry returned is the string's own decode whatever the cache holds, and the cache stays sound and bounded |
| BannedScan.EntryCache.Store | content-scan/scanner.py:828-834 | a full cache is left alone, otherwise the entry is added |
| BannedScan.ScanBannedAudio | content-scan/scanner.py:882-935 | for every cache content the scan is the uncached one |
| BannedScan.FaultCounters.Count | content-scan/server.py:319-332 | one increment for every faulty row, by kind |
| BannedScan.ScanAndCountFaults | content-scan/server.py:302-337 | each fault counter grows by the rows of its kind, and with a usable query compared and counted rows make up the non-blank registry |
| BannedScan.TallyKeepsFirstBest | content-scan/scanner.py:882-935 | the match kept is the row with the first highest score |
| BannedScan.ReportExactly | content-scan/scanner.py:882-935 | the whole report: none for an undecodable query, an empty one for an unusable query, otherwise the first highest scoring row if it reaches the review cut, with its own hash and category |
| BannedScan.TallySortsRows | content-scan/scanner.py:907-931 | degenerate and undecodable rows are listed in order under their own hash and category, and exactly the others that are not blank are compared |
| BannedScan.StripExactly | content-scan/scanner.py:908 | stripping takes the longest runs of white space off both ends and nothing else |
| BannedScan.RowTextsExactly | content-scan/scanner.py:908-911 | a hash is blank exactly when missing or white space only, otherwise a stretch of the stored text; a missing category is empty |
| BannedScan.VerdictExactly | content-scan/scanner.py:775-787 | a usable query is blocked if and only if some decodable usable row reaches the block cut, and sent to review if and only if none does but one reaches the review cut |
| BannedScan.VerdictIgnoresRowOrder | content-scan/server.py:295-317 | the verdict does not depend on the order of the rows |
| BannedScan.EveryRowIsAccountedFor | content-scan/scanner.py:882-935 | compared, unusable and undecodable rows add up to the non-blank rows |
| BannedScan.EveryEnforceableRowScores | content-scan/scanner.py:903-935 | no comparison between usable sides is undefined |
| DuplicateScan.CandidateScore | content-scan/scanner.py:667-687 | the score of a candidate, withheld from the review cut upwards when the candidate carries too little information |
| DuplicateScan.ClosestAudioMatch | content-scan/server.py:167-212 | the loop with the late check returns what checking every candidate first would |
| DuplicateScan.LateCheckAgreesFromCut | content-scan/scanner.py:667-687 | running the information check only from the review cut upwards changes no score at or above it |
| DuplicateScan.LazyAnswersLikeEager | content-scan/scanner.py:667-698 | same row, score and verdict for every store and query, ties included |
| DuplicateScan.ReportedExactly | content-scan/server.py:190-212 | what is reported is the first highest-scoring usable candidate, if it reaches 0.82, blocked from 0.90 upwards; nothing for a query that is not usable |
| DuplicateScan.EagerScoreExactly | content-scan/scanner.py:667-687 | a candidate has a score exactly when it decodes to a usable fingerprint, and it is their similarity |
| KeyRegistry.RegisterKeyAdds | elohim-veni/src/db.rs:268-294 | the trigger adds exactly the identity, the key and the edge that are not there yet, the edge after both |
| KeyRegistry.RegisterKeyRows | elohim-veni/src/db.rs:222-294 | the rows added are those of identity, key and edge that were missing, in this order, each under the id its place draws |
| KeyRegistry.RunKeepsInv | elohim-veni/src/db.rs:222-303 | in every reachable outbox both node rows of an edge precede it under smaller ids, nothing repeats, and everything on file is queued |
| KeyRegistry.EdgeRowsFollowTheirEnds | elohim-veni/src/db.rs:222-303 | from an empty database on, ids ascend, no registration repeats, and an edge's row has both node rows before it |
| KeyRegistry.StepKeepsInv | elohim-veni/src/db.rs:222-303 | every bootstrap and upsert keeps that |
| KeyRegistry.StepExtends | elohim-veni/src/db.rs:222-230 | the outbox only grows and its rows never change |
| KeyRegistry.MintsExactlyOnNewMaterial | elohim-veni/src/db.rs:513-534 | a new key id is minted if and only if the material changes, and the same material adds no row |
| KeyRegistry.UpsertExactly | elohim-veni/src/db.rs:513-599 | the slot holds the material it was given under the kept or the drawn id, no other slot changes, and what is queued besides is that identity, key and edge |
| KeyRegistry.BootstrapExactly | elohim-veni/src/handlers.rs:272-287 | a bootstrap adds the identity and its row, and a second one changes nothing |
| KeyRegistry.KeyIdNamesItsMaterial | elohim-veni/src/db.rs:501-534 | a key id seen twice in a run, however far apart, is the same material of the same identity for the same use |
| KeyRegistry.SignsForOneIdentity | elohim-veni/src/db.rs:285-291 | each key id signs for exactly one identity, for good |
| KeyRegistryService.KeyDb.EnqueueOp | elohim-veni/src/db.rs:222-230 | a new registration is appended under the next id, a known one only consumes the id |
| KeyRegistryService.KeyDb.RegisterKeyTrigger | elohim-veni/src/db.rs:268-294 | the trigger's three enqueues in order |
| KeyRegistryService.KeyDb.BootstrapPial | elohim-veni/src/handlers.rs:272-287 | a new identity is stored and queued, a known one changes nothing |
| KeyRegistryService.KeyDb.UpsertKey | elohim-veni/src/db.rs:580-599 | the upsert and its trigger, in place |
| KeyRegistryService.KeyDb.Backfill | elohim-veni/src/db.rs:305-347 | into an empty outbox everything on file is queued and nothing else; otherwise nothing happens |
| KeyRegistryService.BackfillEstablishesInv | elohim-veni/src/db.rs:305-347 | in whatever order the SELECTs return rows, the backfill establishes the invariant |
| OutboxOrder.TriggerAsksNodesFirst | elohim-veni/src/db.rs:268-294 | the trigger asks for both ends before the edge |
| OutboxOrder.TriggerEnqueuesThese | elohim-veni/src/db.rs:268-294 | these are the trigger's own statements, in its order |
| OutboxOrder.BackfillAsksNodesFirst | elohim-veni/src/db.rs:305-347 | so does the backfill, whatever order its SELECTs return rows in |
| OutboxOrder.StepKeepsInv | elohim-veni/src/db.rs:222-303 | drawing an id, inserting, waiting, committing and rolling back keep every edge backed by smaller visible node rows |
| OutboxOrder.CommittedEdgesFollowTheirEnds | elohim-veni/src/db.rs:256-267 | however registrations overlap and roll back, a reader who sees an edge row sees both node rows under smaller ids |
| OutboxOrder.CommittedWorkIsOnFile | elohim-veni/src/db.rs:222-230 | whatever a committed transaction asked for is on file, however many others asked for the same or rolled back |
| OutboxOrder.OnFileWasAskedFor | elohim-veni/src/db.rs:222-230 | and a row on file was asked for by a committed transaction |
| OutboxOrder.WaitsExactly | elohim-veni/src/db.rs:222-230 | an insert waits exactly while another open transaction has inserted the same registration, and adds its row unless there is one |
| OutboxOrder.NothingIsQueuedTwice | elohim-veni/src/db.rs:164-176 | no two committed rows share a registration or an id |
| OutboxOrder.LaterIdMayCommitFirst | elohim-veni/src/db.rs:164-176 | ids are not commit order |
| OutboxDrain.DeliveredIsTrue | libs/manhattan-outbox/src/drain.rs:139-230 | in every run, with faults, lost answers, quarantine, other writers, revoked names and out-of-order delivery, the graph has no dangling edge and every row marked delivered is in it |
| OutboxDrain.RunKeepsInv | libs/manhattan-outbox/src/drain.rs:139-230 | the invariant behind it holds at the end of every run |
| OutboxDrain.OvertakesExactlyBackedOff | libs/manhattan-outbox/src/drain.rs:139-150 | a batch delivers past an earlier waiting row, leaving it waiting, if and only if that row was not due at the read |
| OutboxDrain.BatchExactly | libs/manhattan-outbox/src/drain.rs:139-150 | a read takes every due row, or the 200 oldest of them |
| OutboxDrain.LostAnswerHoldsTheHead | libs/manhattan-outbox/src/drain.rs:178-192 | without an answer the first row waits ten seconds more, nothing is counted and no other row changes |
| OutboxDrain.OtherStepsExactly | elohim-veni/src/db.rs:192-204 | a commit shows a row and a release takes one out of quarantine, due and with no attempt counted; another writer changes the plane alone |
| OutboxDrain.ActedExactly | libs/manhattan-outbox/src/drain.rs:194-315 | what each verdict makes of a row: its state, its attempts and when it is due next |
| OutboxDrain.BackoffDoubles | libs/manhattan-outbox/src/drain.rs:238-315 | the wait after a not-yet is a second, doubling up to 2048 seconds; the bound of an hour is never met |
| OutboxDrain.ResolvesAfterExactly | manhattan/src/main.rs:1812-1840 | after operations none of which held, a name resolves if and only if it did before or was asked for and not refused |
| OutboxDrain.EdgeSentBackExactly | manhattan/src/main.rs:2025-2069 | an edge that the batch gets to and nothing else stands against is sent back if and only if one of its ends neither resolves at the start nor is asked for before it unrefused |
| OutboxDrain.InOrderEdgesFindTheirEnds | elohim-veni/README.md:132-137 | so with nothing before it quarantined, backed off or refused and no end revoked, an edge is never sent back |
| OutboxDrain.ReplayIsSafe | libs/manhattan-outbox/src/drain.rs:178-192 | sending again what was already done changes nothing, and is answered Already if and only if nothing stands in its way and no name of it was revoked since |
| OutboxDrain.ApplyOneIsTruthful | manhattan/src/main.rs:1897-2066 | an accepted operation is in the graph, an edge only between existing nodes, and anything else changes nothing |
| OutboxDrain.PlaneAnswersExactly | manhattan/src/main.rs:1897-2066 | the plane's answer to an operation guard by guard, and the node, name or edge an applied one adds |
| OutboxDrain.WalkIsTruthful | manhattan/src/main.rs:1812-1840 | so is every accepted operation of a batch at its end |
| OutboxDrain.VerdictAt | manhattan/src/main.rs:1812-1840 | a verdict is what the plane says after the operations before it, or skipped once one held |
| OutboxDrain.EachVerdictIsActedOn | libs/manhattan-outbox/src/drain.rs:194-226 | stopping at the first row that still waits loses nothing: every row reached ends as its own verdict alone would leave it |
| OutboxDrain.CountedAndQuarantinedExactly | libs/manhattan-outbox/src/drain.rs:238-315 | an attempt is counted exactly for a not-yet or a refusal, never for a fault, a row is quarantined exactly when refused or at its twelfth not-yet |
| OutboxDrain.ActInOrder | libs/manhattan-outbox/src/drain.rs:194-230 | a row delivered by a batch was accepted, and every row read before it is settled |
| OutboxWhole.StepKeepsAgreement | elohim-veni/src/db.rs:256-267 | every registration step and every drain step keeps visible rows exactly the committed ones, at their ids' places |
| OutboxWhole.WholeRunDeliversTruth | elohim-veni/src/db.rs:256-267 | however registrations overlap and roll back and whatever becomes of delivery, every edge row the drain can read has both node rows before it, and what is marked delivered is in the graph |
| OutboxStarvation.EdgeQuarantinedBehindAHeldNode | libs/manhattan-outbox/src/drain.rs:243-315 | a run in which an edge is counted out while its identity's row waits, held and never counted |
| Lineage.SplitUndoesJoin | alexandria/src/handlers.rs:279-299 | a path printed with separators parses back to its chain |
| Lineage.JoinIsInjective | alexandria/src/handlers.rs:279-299 | two chains with one path are one chain |
| Lineage.CreateKeepsSound | alexandria/src/handlers.rs:279-299 | a new title stores the path of what it can know and disturbs no other |
| Lineage.TombstoneKeepsSound | alexandria/src/handlers.rs:689-701 | a tombstone changes nobody's lineage |
| Lineage.LineageParsesBack | alexandria/src/handlers.rs:279-299 | a lineage is empty exactly for a root and otherwise parses to the known ancestors, whose number is the depth modulo the i16 |
| Lineage.LineageIsChainExactly | alexandria/src/handlers.rs:279-293 | the lineage is the whole chain of ancestors root first if and only if no query that mattered failed |
| Lineage.DepthIsLengthExactly | alexandria/src/handlers.rs:295-299 | depth is the length of the chain if and only if the lineage is the whole chain and no longer than 32767 |
| Lineage.AncestorsAreOlder | alexandria/src/handlers.rs:279-299 | no title is its own ancestor, nor is a later one |
| TitleCount.CountFollowsTheSchedule | alexandria/src/handlers.rs:399-411 | in every interleaving the count is the additions less the lowerings, raised by the largest lead the lowerings ever had |
| TitleCount.TitlesStaySound | alexandria/src/handlers.rs:279-299 | in every interleaving every stored lineage is sound |
| TitleCount.CountIsLiveExactly | alexandria/src/handlers.rs:399-411 | the count is the number of live titles if and only if creations not counted are as many as removals not lowered and that lead, all read off the schedule |
| TitleCount.SettledCountIsLiveExactly | alexandria/src/handlers.rs:399-411 | once every statement has been carried out, if and only if at no time more lowerings than additions had been; it is never too low |
| TitleCount.FloorIsReachedExactly | alexandria/src/handlers.rs:703-709 | a lowering meets GREATEST(0, …) exactly when it takes the lead beyond all before, never while every creation has been counted |
| TitleCount.SerialCountsAreLive | alexandria/src/handlers.rs:399-411 | in serial schedules with every statement answered the count is exact and lowerings are never ahead |
| TitleCount.OverlapLeavesAGhost | alexandria/src/handlers.rs:689-709 | a title tombstoned between its insert and its count leaves a count of one and no live title |
| TitleService.LibraryDb.LineageUnder | alexandria/src/handlers.rs:279-293 | the path a new title gets, a failed query read as a missing parent |
| TitleService.LibraryDb.CreateTitle | alexandria/src/handlers.rs:260-411 | the row stored and the count, whether or not the count's statement ran |
| TitleService.LibraryDb.TombstoneTitle | alexandria/src/handlers.rs:689-709 | only the author, only once, and the count lowered no further than zero |
| TitleService.LibraryDb.BootstrapAuthorRow | alexandria/src/handlers.rs:110-121 | a new author starts at zero and a known one keeps the count |

## Left out

- HTTP routing, JSON encoding, metrics, logs and notifications: plumbing without a property of its own.
- Resolution of names to identities: a request reaches the models with its parties resolved.
- SHA-256 is an arbitrary function on pairs and on leaves; the text that is concatenated into a block hash is a tuple.
- Timestamps and random UUIDs are parameters; a drawn UUID is assumed not to be in use.
- Transactions of the ledger and the wallet take effect as a whole: row locks and isolation between them are not modelled, except for the outbox keys (`OutboxLocks`, `OutboxOrder`), the sealer, burn's early read and the title count.
- Columns that overflow BIGINT, lost connections and other database errors inside a transaction are one flag that refuses it and rolls it back.
- The funding_events row written before a mint, and a mint that fails after it, are not part of the ledger model.
- The ledger's status column, credit balances, histories and metadata: no property depends on them; events are confirmed when written.
- The wallet's governance tables and its checkpoint endpoint: counting without interaction.
- Floating point: scores, cuts and tip amounts are exact reals; rounding is modelled only where an amount becomes an integer.
- Decoding of audio fingerprints is an arbitrary partial function.
- Log lines of the scan server, and the texts of its faults and reasons.
- `$ref`, formats, bounds and the other schema keywords: the meaning of a schema is its type, enum, required and property keywords, nested to any depth.
- An enum on the payload itself: the guarantee is stated for schemas that do not list whole payloads one by one.
- Depth limits and edge ownership on the naming plane, and its cache of resolutions, appear only as the moods with which the plane may refuse or postpone an operation; edges are never retracted.
- The key tables' algorithm column, which never affects a key id, and the messaging keys, which no trigger registers.
- A quarantine whose own update fails after the attempt was counted is treated as the drain stopping at that row.
- Tags, holdings and signals of titles, and titles brought in by other means than the create handler.
