# Verified model of the node's chain state, address manager, check queue, Merkle proofs and codecs

A Dafny model of the hard parts of a node that runs a main chain with sidechains, and proofs about
it. `dafny verify dfyconfig.toml` checks everything. Code that works in place is modelled in place
(classes, arrays, loops) and proved against functions on values; the theorems are about those
functions.

## What is modelled

**Sidechain ledger and layered chain state.** `SidechainMachine` is the state machine of one
sidechain: creation, forward transfers and backward transfer requests, certificates with epoch and
quality, maturing and ceasing, ceased withdrawals, and the undo of each. `EventIndex` and `Ledger`
put all sidechains into the shared maps that the node keeps, `Blocks` and `BlockUndo` put operations
into blocks, and `LedgerRuns` is about whole chains and reorganisations. `BlockSheets` and
`LedgerHistory` read off the blocks alone what the ledger has to say about a sidechain after any run,
in sums over outputs, withdrawals and certificates, and `LedgerNullifiers` shows that no withdrawal is
made twice. `LayeredCache` and
`CoinsCache` are the caches with their flags, and the class in `ChainState` holds a view over the tip
cache over the store and does all of the above on flagged entries, and on the coins of certificates:
`SupersededCoins` and `CeasedCoins` are about the backward transfers that a block voids because a
better certificate of the epoch arrives or because a sidechain ceases, and about their return. A view
is used either for connecting or for disconnecting before it is flushed, as `ConnectTip` and
`DisconnectTip` do (src/main.cpp:4093-4293). `CVerifyDB::VerifyDB`, which disconnects and connects on
one view without flushing (src/main.cpp:5756-5828), is not covered.

That certificates belong to one sidechain each and have a certificate's coins is kept by every block
whose certificates have hashes of their own, which is all that is asked of a block.

Undo is an inverse exactly for blocks that are *safe to undo*: no sidechain matures an amount of zero
at the block's height, and if a block pays a sidechain several times the payment undone last is
positive. Backward transfer requests may pay nothing, so the condition can fail;
`LedgerRuns.ZeroRequestsBreakUndo` is such a block. Inside a block the event index is temporarily out
of step while transactions are undone (the maturing listing is dropped with the first payment
reverted), so the inverse is a property of blocks and not of single transactions.

**Address manager.** `AddrTables`, `AddrOps` and `AddrRuns` define every operation on values with the
structural conditions of `Check_` as the invariant; the class in `AddrMan` does the same on records
and bucket arrays in place. `AddrEffects` states what each operation does to entries and tables, in
numbers where the source has numbers. `AddrSaved` is the file format, `AddrReload` writing and reading it back,
and `AddrLives` is about whole lives with restarts and about the dates that `Check_` asks for. `Clear`
leaves the two maps alone, so that only an empty manager is consistent after it. Bucket counts are
parameters and bucket placement is any function within bounds. Random choices and times are
parameters.

**Check queue.** `CheckQueue` is a transition system with one program counter per thread: a step is
one critical section, or one check run outside the lock. A check is the result it would give. The
claim that a drained queue without a master is idle holds if and only if all checks added in the open
session succeed; `CheckQueue.FailedSessionNotIdle` is a run where it does not.

**Partial Merkle trees.** `MerkleTree`, `MerkleSizes` and `PartialMerkle` follow the format of
section "Partial Merkle branch format" of BIP 37, with any injective pair hash. The bound of 2N - 1
flag bits for N hashes, stated in a comment, is exact if and only if no match lies below a node with
a single child; 2N - 1 plus the height always holds. The promised number of bytes has an exact
condition of the same kind in `MerkleBytes`, and is broken by large blocks with every leaf matched.
`MerkleProofs` says exactly which trees are accepted: a tree may go further down than its matches ask
for, so these are more than the built ones. `MerkleLevels` is the computation of the root level by
level that blocks use, and what its mutation flag detects.

**Arithmetic, index and codecs.** `BaseUint` is the limb arithmetic in place, `CompactTargets` the
compact form, `Retargeting` block proofs and the averaging window. `BlockIndexes` and `ActiveChain`
are the block index with skip pointers and the indexed chain. `SkipWalk` counts the rounds of the
walk: they grow with the square of the number of bits of the height, above and below. `Numerals`,
`Base58` and `Base58Codec` are base 58. `VarInts`, `Amounts`, `SpentMask` and `CoinsCodec` are the serialization of coins: a
record comes back as it was exactly under the conditions of `CoinsCodec.SameRecord`. A negative
version, as certificates have, comes back as its low seven bits, which is all the certificate test
looks at. `CoinsFormat` has the documented examples, and which versions carry the fields of
certificates. `Powers`, `LimbValues` and `LimbShifts` are the arithmetic below these.

## Model

| member | source | states |
|---|---|---|
| `SidechainTypes.NextEpochCeasesLater` | src/sc/sidechain.cpp:68-116 | a certificate for the next epoch moves the scheduled ceasing height by exactly one epoch length, so it is strictly later |
| `SidechainTypes.TotalSplit` | src/coins.cpp:2129-2138 | the sum over a height-indexed table of amounts does not depend on the order in which heights are taken out |
| `SidechainTypes.MaxFeesLeast` | src/sc/sidechain.cpp:534-548 | the fee list has room for the least number of epochs, at least one, that together last as long as the blocks to be checked |
| `SidechainMachine.ApplyOpsKeepsMidInv` | src/coins.cpp:769-930 | the outputs of any list of transactions, accepted one after the other, keep event index and record in agreement inside a block |
| `SidechainMachine.ApplyCertKeepsMidInv` | src/coins.cpp:1773-1880 | a certificate keeps the agreement: its ceasing event is rescheduled exactly when the epoch changes |
| `SidechainMachine.HandleEventsSafe` | src/coins.cpp:2111-2173 | none of the asserts in event handling fires, and afterwards the agreement holds at the new height |
| `SidechainMachine.ConnectKeepsInv` | src/main.cpp:3490-3775 | a whole block (transactions, top certificate, events) keeps the agreement: listed as maturing exactly at the keys of the immature amounts, as ceasing exactly at the scheduled height that is still ahead |
| `SidechainUndo.EventsUndone` | src/coins.cpp:2177-2261 | undoing the events of a height gives the state back if and only if no amount of zero matured at that height |
| `SidechainUndo.CertUndone` | src/coins.cpp:2001-2092 | undoing a certificate with its undo record gives the state back, first of its epoch or not |
| `SidechainUndo.ApplyOpsTally` | src/coins.cpp:769-930 | whatever order a block touches a sidechain in, the resulting state is a function of the tally of the operations |
| `SidechainUndo.BlockedExactly` | src/coins.cpp:2335-2373 | where undoing the payments of a block is refused, in terms of the list of paid amounts alone |
| `SidechainUndo.OpsUndone` | src/coins.cpp:932-1096 | undoing the transactions of a block restores the sidechain exactly when the payment undone last is positive or the only one, and is refused otherwise |
| `SidechainConservation.ApplicableCertApplied` | src/coins.cpp:1191-1267 | a certificate that passes the applicability checks is refused only if it repeats the recorded epoch without a better quality; it never runs into an assert |
| `SidechainConservation.CoveredWithdrawalsApplied` | src/coins.cpp:778-797 | ceased withdrawals whose total is within the balance are all applied and take exactly that total |
| `SidechainConservation.ConnectConserves` | src/coins.cpp:769-930 | a block changes balance plus immature amounts by what is paid in, minus what is withdrawn, minus what its certificate adds to the recorded one of the same epoch |
| `SidechainConservation.FinalAmountsAppend` | src/coins.cpp:1807-1838 | a further certificate of the same epoch takes the place of the previous one in the sum of final amounts |
| `SidechainConservation.Conservation` | src/coins.cpp:1807-1838 | over every run of blocks, balance plus immature amounts is all value sent in minus withdrawals minus the final certificate amount of each epoch, and is never negative; the record remembers hash, epoch, quality, amount and view of the last certificate |
| `EventIndex.UpdateTransposed` | src/coins.cpp:839-858 | adding or dropping one listing at one height changes exactly one height of one sidechain in the transposed index, also when an empty height record is erased |
| `EventIndex.TransposeDetermines` | src/coins.cpp:341-374 | an index without empty records is determined by the listings of each sidechain |
| `Ledger.PartsDetermine` | src/coins.cpp:281-374 | records, events and nullifiers are determined by what they say about each sidechain, so block-level equality can be shown sidechain by sidechain |
| `Ledger.ApplyOpFollows` | src/coins.cpp:769-930 | one output applied to the shared maps takes the step of that sidechain and leaves every other sidechain as it is |
| `Ledger.RevertOpFollows` | src/coins.cpp:932-1096 | the same for undoing one output, including when it is refused |
| `Ledger.ApplyOpsProject` | src/coins.cpp:769-930 | in any list of outputs every sidechain sees exactly its own, in order |
| `Ledger.RevertOpsProject` | src/coins.cpp:932-1096 | undoing a list goes through exactly when it does for each sidechain, and then has exactly those results |
| `Blocks.TopDistinct` | src/main.cpp:971-995 | of the certificates of a block the last one of each sidechain is kept, and only that one |
| `Blocks.ApplyCertsProject` | src/coins.cpp:1773-1880 | the certificates of a block act on each sidechain as its own one, with one undo record each |
| `Blocks.CertsUndone` | src/coins.cpp:2001-2092 | undoing all certificates in reverse order with the recorded data restores the ledger |
| `Blocks.HandleEventsProject` | src/coins.cpp:2111-2173 | handling a height acts on each sidechain by its own listings, for all sidechains at once, and no assert fires |
| `Blocks.RevertEventsProject` | src/coins.cpp:2177-2261 | reverting a height goes through if and only if it does for every sidechain by its own undo record, and then has exactly those results |
| `BlockUndo.UndoCovers` | src/main.cpp:3005-3017 | the undo order of a block (transactions last to first, nullifiers before outputs, outputs by kind) has the same tally as the order of application, with a creation always undone last |
| `BlockUndo.TxsUndone` | src/coins.cpp:932-1096 | undoing all transactions of a block restores the ledger if and only if, for each sidechain, the payment undone last is positive or the only one |
| `BlockUndo.BlockUndone` | src/main.cpp:2703-3117 | disconnecting a connected block with its undo data restores every sidechain record, every event set and every nullifier if and only if the block is safe to undo (no zero amount matures at its height, no zero payment is undone last among several) |
| `LedgerRuns.Reachable` | src/main.cpp:3220-3945 | in every state reached by connecting blocks the event index agrees with the ledger, and every sidechain is where its own operations alone would have taken it |
| `BlockSheets.TxAddsUp` | src/coins.cpp:769-930 | the operations of a transaction on a sidechain add up to the amounts in its outputs for that sidechain, the amounts and nullifiers of its withdrawals, and its creations |
| `BlockSheets.TxsAddUp` | src/coins.cpp:769-930 | the same for the transactions of a block: what its operations pay in and withdraw are the sums over its outputs and withdrawals themselves |
| `LedgerHistory.TopFor` | src/main.cpp:971-995 | the top certificate of a sidechain is its last certificate in the block |
| `LedgerHistory.RunExplained` | src/main.cpp:3220-3945 | after any run of blocks the ledger says about every sidechain exactly what the blocks say: the record is that of its one creation; every amount sent in is due at its height or is in the balance, from which withdrawals and the last certificate of each epoch are taken; epochs start at zero, then each certificate has a better quality in its epoch or belongs to the next one; the record holds the last certificate, the views of the last two epochs, and the fees of the epochs as far as there is room |
| `LedgerHistory.LedgerConservation` | src/coins.cpp:769-930 | value is conserved for every sidechain over every run of blocks, in sums over the outputs, withdrawals and certificates of the blocks themselves, and no balance is ever negative |
| `LedgerHistory.RunScheduled` | src/sc/sidechain.cpp:68-116 | after any run of blocks the events listed for a sidechain are those of its amounts still maturing, and its ceasing at the height worked out from creation height, epoch length and last epoch, as long as that is ahead |
| `LedgerNullifiers.WithdrawnOnce` | src/main.cpp:3498-3505 | over any run of blocks no two withdrawals from a sidechain have the same nullifier, and the ledger holds exactly the nullifiers of the withdrawals made |
| `LedgerRuns.HoldingsTallied` | src/coins.cpp:769-930 | what every sidechain holds after a run, in terms of the tallies of its operations; LedgerHistory.LedgerConservation is the same in terms of the blocks |
| `LedgerRuns.ReorganisationSafe` | src/main.cpp:4093-4188 | after any sequence of connecting and disconnecting blocks that are safe to undo, the ledger is the one obtained from genesis along the surviving chain, and disconnecting the tip is never refused |
| `LedgerRuns.ZeroRequestsBreakUndo` | src/coins.cpp:2335-2373 | two backward transfer requests that pay nothing, to any existing sidechain: the block connects, and disconnecting it does not restore the ledger |
| `LedgerRuns.ConnectNeverAsserts` | src/coins.cpp:1568-1576 | if every withdrawal passes the balance check in the state it is applied to, no assert fires while the block is connected |
| `LedgerRuns.ApplicableCertApplied` | src/coins.cpp:1237-1251 | in every ledger inside a block, an applicable certificate that is not the recorded one is applied |
| `LayeredCache.AskIsSilent` | src/coins.cpp:688-692 | asking the layer below fills it without changing what any layer shows |
| `LayeredCache.LookIsSilent` | src/coins.cpp:299-315 | a getter copies an entry up without changing what any layer shows, and finds exactly what is shown |
| `LayeredCache.WriteIsSound` | src/coins.cpp:317-374 | a write to the top view changes what it shows at that key only, and nothing below |
| `LayeredCache.UpdateIsSound` | src/coins.cpp:317-374 | opening an entry and writing it back with a legal flag keeps the layers sound |
| `LayeredCache.FlushShows` | src/coins.h:366-430 | merging a view into its parent makes the parent show exactly what the view showed, flag by flag |
| `LayeredCache.MergeOne` | src/coins.h:366-430 | writing one entry down meets none of the FRESH and DEFAULT asserts and gives the merge with that entry |
| `LayeredCache.BatchWrite` | src/coins.cpp:609-686 | in any order of the entries, the loop computes the merge and no assert fires |
| `LayeredCache.Flush` | src/coins.cpp:2323-2333 | afterwards the view is empty and the parent shows what the view showed |
| `LayeredCache.StoreShows` | src/txdb.cpp:225-290 | the store that takes FRESH and DIRTY entries and deletes ERASED ones ends up as what the cache showed |
| `LayeredCache.FlushTip` | src/main.cpp:4033-4045 | writing the tip cache to the store leaves every layer showing the same |
| `LayeredCache.FreshOverErasedFails` | src/coins.h:371-376 | an instance, with every flag legal, where the FRESH assert stops the second flush: a FRESH entry over an ERASED one stays FRESH over a cache that still shows the key |
| `LayeredCache.ThirdFlushExact` | src/coins.h:366-430 | with a third cache, flushing the top one and then the middle one meets no assert, in any order of the entries, if and only if no key is fresh in the top cache, erased in the middle one and shown by the bottom one; the bottom cache then shows what the top one showed |
| `Coins.Cleanup` | src/coins.cpp:84-90 | drops exactly the trailing spent outputs |
| `Coins.Void` | src/coins.cpp:1882-1915 | the loop that spends the backward transfers of a certificate while the output list shrinks voids all of them and records each, with the metadata on the one that empties the record |
| `Coins.Restore` | src/coins.cpp:1917-1957 | restores from the undo list, last entry first, and reports whether every position fitted |
| `Coins.VoidedRestored` | src/coins.cpp:1882-1957 | restoring what was voided gives back the identical record, metadata included when everything was pruned, and reports clean |
| `Coins.VoidedExactly` | src/coins.cpp:1882-1915 | in a voided record no backward transfer is available, every other output is as it was, and so is the rest of the record |
| `CoinsCache.LookIsSilent` | src/coins.cpp:281-297 | fetching coins changes nothing shown; a pruned entry counts as absent |
| `CoinsCache.HaveMatchesShown` | src/coins.cpp:510-517 | HaveCoins answers exactly whether the coins are shown |
| `CoinsCache.ModifyIsSound` | src/coins.cpp:480-499 | the modifier hands out what is shown (or an empty record), and writing back changes the view at that key only, dropping a FRESH entry that ends up pruned |
| `CoinsCache.MergeOne` | src/coins.cpp:567-607 | writing one coins entry down meets no assert and gives the merge with that entry |
| `CoinsCache.BatchWrite` | src/coins.cpp:609-686 | the loop computes the merge of view and tip in any order |
| `CoinsCache.MergedShows` | src/coins.cpp:567-607 | after the merge the tip shows exactly the coins the view showed |
| `CoinsCache.Flush` | src/coins.cpp:2323-2333 | flushing coins leaves an empty view over a tip that shows the same |
| `CoinsCache.StoreShows` | src/txdb.cpp:225-290 | the coins store ends up as what the tip cache showed, without pruned records |
| `CoinsCache.FlushTip` | src/main.cpp:4033-4045 | writing the coins tip to the store keeps what is shown |
| `SupersededCoins.OpsKeepHeld` | src/coins.cpp:769-930 | transactions leave every last certificate as it is, so that the certificate a block supersedes can be found before or after them |
| `SupersededCoins.SupersededOnce` | src/main.cpp:971-1020 | no two top certificates of a block supersede the same certificate, and the coins of a superseded one are a certificate's |
| `SupersededCoins.SupersededExactly` | src/main.cpp:3650-3692 | the certificates that a block supersedes are those recorded, before the block, for the epoch of its top certificates |
| `SupersededCoins.SupersededHeld` | src/main.cpp:3650-3692 | once a block's certificates are applied and the superseded ones voided, no certificate belongs to two sidechains and every last certificate with coins has those of a certificate |
| `SupersededCoins.RestoreSuperseded` | src/main.cpp:2858-2866 | restoring what the last top certificate superseded gives back exactly those coins, whatever is left of the record, and leaves the others voided |
| `CeasedCoins.RestoreOneCert` | src/coins.cpp:1917-1957 | restoring one ceased certificate among several gives back its coins and leaves the others voided |
| `CeasedCoins.CertsExactly` | src/coins.cpp:2140-2165 | the certificates voided when sidechains cease are the last ones recorded for them, of those that have one |
| `ChainState.ChainState.HaveSidechain` | src/coins.cpp:688-692 | answers whether the view shows the sidechain, and changes nothing shown |
| `ChainState.ChainState.GetSidechain` | src/coins.cpp:694-705 | returns the record the view shows, or nothing where it shows none |
| `ChainState.ChainState.HaveSidechainEvents` | src/coins.cpp:2094-2098 | answers whether the view shows events at a height |
| `ChainState.ChainState.GetSidechainEvents` | src/coins.cpp:2100-2109 | returns the events the view shows at a height, or nothing where it shows none |
| `ChainState.ChainState.HaveCswNullifier` | src/coins.cpp:536-548 | answers whether the nullifier is shown as spent |
| `ChainState.ChainState.AddCswNullifier` | src/coins.cpp:550-557 | reports success exactly when the nullifier was not shown, but adds it only if the view holds no entry for it: over an erased entry it reports success and adds nothing |
| `ChainState.ChainState.RemoveCswNullifier` | src/coins.cpp:559-565 | removes a shown nullifier and reports whether it was shown |
| `ChainState.ChainState.ApplyCreation` | src/coins.cpp:800-864 | a creation output, with its two events, takes the step of the ledger |
| `ChainState.ChainState.ApplyTransfer` | src/coins.cpp:866-927 | a forward transfer or request takes the step of the ledger |
| `ChainState.ChainState.ApplyWithdrawal` | src/coins.cpp:778-797 | a ceased withdrawal takes the step of the ledger, including the balance assert |
| `ChainState.ChainState.UpdateSidechain` | src/coins.cpp:769-930 | a transaction applied to flagged cache entries has the outcome of the plain ledger, and only the top view changes |
| `ChainState.ChainState.RevertTransfer` | src/coins.cpp:938-1003 | undoing a transfer takes the undo step of the ledger |
| `ChainState.ChainState.RevertCreation` | src/coins.cpp:1005-1070 | undoing a creation takes the undo step of the ledger |
| `ChainState.ChainState.RevertTxOutputs` | src/coins.cpp:932-1096 | undoing a transaction on flagged cache entries has the outcome of the plain ledger |
| `ChainState.ChainState.ConnectTransactions` | src/main.cpp:3490-3505 | all transactions of a block, outputs first and then nullifiers, have the outcome of the plain ledger |
| `ChainState.ChainState.DisconnectTransactions` | src/main.cpp:3005-3017 | all transactions undone in reverse order have the outcome of the plain ledger |
| `ChainState.ChainState.UpdateSidechainByCert` | src/coins.cpp:1773-1880 | a certificate on flagged cache entries has the outcome and the undo record of the plain ledger |
| `ChainState.ChainState.RestoreSidechain` | src/coins.cpp:2001-2092 | undoing a certificate on flagged cache entries has the outcome of the plain ledger |
| `ChainState.ChainState.ConnectCertificates` | src/main.cpp:3645-3692 | the top certificates have the outcome and undo records of the plain ledger, and exactly the certificates they supersede are voided, with their undo lists |
| `ChainState.ChainState.DisconnectCertificates` | src/main.cpp:2768-2905 | undoing the top certificates last to first has the outcome of the plain ledger and gives back the coins of before |
| `ChainState.ChainState.NullifyBackwardTransfers` | src/coins.cpp:1882-1915 | the shown coins of the certificate become the voided ones, with their undo list; a certificate whose maturity height is not set stops at the assert |
| `ChainState.ChainState.RestoreBackwardTransfers` | src/coins.cpp:1917-1957 | the shown coins become the restored ones and the cleanness flag is returned |
| `ChainState.ChainState.HandleSidechainEvents` | src/coins.cpp:2111-2173 | has the outcome and undo data of the plain ledger, and voids exactly the certificates of the ceasing sidechains |
| `ChainState.ChainState.RevertSidechainEvents` | src/coins.cpp:2177-2261 | has the outcome of the plain ledger and gives the coins back |
| `ChainState.ChainState.Flush` | src/coins.cpp:2323-2333 | coins, sidechains, events and nullifiers together: the tip shows exactly what the view showed, and the view is empty |
| `ChainState.ChainState.FlushStateToDisk` | src/main.cpp:4033-4045 | the store holds exactly what the tip showed |
| `ChainState.ChainState.ConnectBlock` | src/main.cpp:3220-3945 | on three layers of flagged caches, in block order, has the outcome and undo data of the plain ledger, voids exactly the superseded and the ceased certificates, keeps the certificates' condition on coins and leaves the tip as it was |
| `ChainState.ChainState.DisconnectBlock` | src/main.cpp:2703-3117 | the reverse order has the outcome of the plain ledger and gives back all voided coins |
| `ChainState.ChainState.ConnectTip` | src/main.cpp:4200-4293 | a view is opened, the block connected and the view flushed; a failed block leaves tip and store showing the same as before, and the condition on certificates and coins that the next block asks for holds again |
| `ChainState.ChainState.DisconnectTip` | src/main.cpp:4093-4188 | the same for disconnecting |
| `ChainState.ChainState.ConnectThenDisconnect` | src/main.cpp:4093-4188 | connecting a block, flushing, disconnecting it and flushing gives back everything shown, coins included, if and only if the block was safe to undo |
| `AddrTables.DeleteKeepsInv` | src/addrman.cpp:113-125 | deleting an unreferenced entry keeps all conditions of Check_ |
| `AddrTables.ClearNewKeepsInv` | src/addrman.cpp:127-140 | clearing a new slot drops one reference, deletes an entry with none left, and keeps the conditions |
| `AddrTables.SwapKeepsInv` | src/addrman.cpp:93-111 | a swap of the random order keeps positions and order inverse to each other |
| `AddrTables.RefKeepsInv` | src/addrman.cpp:281-303 | filling a free new slot adds one reference and keeps the conditions |
| `AddrOps.CreateKeepsInv` | src/addrman.cpp:81-91 | a new entry breaks the conditions only in that it is not referenced yet |
| `AddrOps.ForgetKeepsInv` | src/addrman.cpp:142-157 | taking an entry out of all its new slots brings its reference count to zero |
| `AddrOps.Evict` | src/addrman.cpp:161-182 | the entry evicted from a tried slot moves to its new slot, whatever was there is cleared, and all conditions are kept |
| `AddrOps.MakeTried` | src/addrman.cpp:142-188 | moving an entry to the tried table keeps all conditions and every other field of the entry |
| `AddrRuns.Insert` | src/addrman.cpp:281-303 | placing an entry in a new slot keeps the conditions in each of the cases: already there, overwritten, or given up and deleted |
| `AddrRuns.Add` | src/addrman.cpp:239-305 | Add_ keeps all conditions of Check_, for new and known addresses and any luck |
| `AddrRuns.AddEffects` | src/addrman.cpp:239-305 | an announcement never touches the tried table and never loses a known address; it reports a new address exactly when it was unknown and routable, and that address is known afterwards exactly when its slot was free or held by an entry that is terrible or referenced elsewhere |
| `AddrRuns.Good` | src/addrman.cpp:190-237 | Good_ keeps all conditions, and a known entry ends up in its tried slot |
| `AddrRuns.BucketFound` | src/addrman.cpp:211-228 | every new entry is in some new bucket, so the exit for no bucket found is never taken |
| `AddrRuns.Attempt` | src/addrman.cpp:307-324 | Attempt_ keeps all conditions; AddrEffects.AttemptsCounted says what it changes |
| `AddrRuns.Connected` | src/addrman.cpp:489-507 | Connected_ keeps all conditions; AddrEffects.ConnectedExact says what it changes |
| `AddrRuns.Drawn` | src/addrman.cpp:468-487 | the swaps of GetAddr_ keep all conditions and change nothing but the random order |
| `AddrRuns.Run` | src/addrman.cpp:391-466 | after every sequence of Add, Good, Attempt, Connected and GetAddr the structural conditions of Check_ hold |
| `AddrEffects.InsertExact` | src/addrman.cpp:281-303 | an entry offered the slot of its source keeps it if it is there, takes it if the holder makes room (there is none, it is terrible, or a newcomer finds it elsewhere too), and the holder goes if this was its only slot; an entry left without any slot goes |
| `AddrEffects.AddKnownExact` | src/addrman.cpp:247-279 | a known address: services are joined, the time is refreshed by the stated intervals less the penalty, and a slot for this source is offered exactly if the announcement is newer, the entry is not tried, has fewer than eight slots, and is lucky |
| `AddrEffects.AddNewExact` | src/addrman.cpp:239-305 | an unknown address: reported as new exactly if it is routable, and then an entry with its time less the penalty is offered the slot of its source |
| `AddrEffects.GoodExact` | src/addrman.cpp:190-237 | last success and last try are set and attempts cleared; an entry that was not tried leaves all its new slots and takes its tried slot, whose holder goes back to the new slot of its own source |
| `AddrEffects.AttemptsCounted` | src/addrman.cpp:307-324 | any sequence of attempts on a known service adds its length to the attempts of the entry, sets the last try to the last time, and changes nothing else |
| `AddrEffects.TerribleMeans` | src/addrman.cpp:32-50 | when an entry is terrible, in numbers of seconds and attempts |
| `AddrEffects.FailuresTerrible` | src/addrman.cpp:32-50 | three failures make an entry without a success terrible, ten one whose success is more than a week old, once a minute has passed |
| `AddrEffects.GoodSaves` | src/addrman.cpp:190-237 | a success saves an entry for a minute, and for a week however often it fails, if it was seen within thirty days |
| `AddrEffects.ConnectedExact` | src/addrman.cpp:489-507 | the time of a known service is brought within twenty minutes, never back, and nothing else changes; it is left alone if it is recent enough |
| `AddrMan.AddrMan.Clear` | src/addrman.h:442-461 | tables, order and counters are reset and the two maps are not: the manager is consistent afterwards if and only if both maps were empty |
| `AddrMan.ClearedConsistent` | src/addrman.h:442-461 | the same for any state and any new key: clearing gives a consistent manager if and only if it had no record and no address |
| `AddrMan.ClearedUsedFails` | src/addrman.h:442-461 | a manager with one entry is not consistent after Clear |
| `AddrReload.CountsFit` | src/addrman.h:352-358 | the counters of a consistent manager are within the two limits that the reader checks |
| `AddrReload.FileAccepted` | src/addrman.h:332-435 | the file of a consistent manager, in any order of the records, passes both checks of the reader, and what is loaded is the same manager up to ids and consistent again |
| `AddrReload.Restart` | src/addrman.h:282-435 | writing a manager and reading the file back is never refused and gives the same manager up to ids, consistent |
| `AddrLives.NextDated` | src/addrman.cpp:401-425 | an operation keeps the dates that Check_ asks for if and only if the time it is given is positive for a success and not negative for an attempt on a known entry |
| `AddrLives.ReloadedRight` | src/addrman.h:332-435 | a restart keeps the structure and the dates |
| `AddrLives.LifeConsistent` | src/addrman.cpp:391-466 | every state of every life of the manager, through any operations and restarts, passes Check_: the structure always, and the dates if the callers' times are right |
| `AddrSaved.Serialize` | src/addrman.h:282-330 | in any order of the records, the file lists every new and every tried entry once and the new slots of each bucket by position of their entries |
| `AddrSaved.Unserialize` | src/addrman.h:332-435 | a file with more entries than the tables can hold is refused; otherwise the loops load exactly the specified state |
| `AddrSaved.RoundTrip` | src/addrman.h:282-435 | the state specified for the file of a consistent manager has the same entries, counts, reference counts, address map and both tables up to the renaming of ids; AddrReload.Restart is the same through both methods |
| `AddrMan.AddrMan.constructor` | src/addrman.h:442-470 | a fresh manager is empty and consistent |
| `AddrMan.AddrMan.SwapRandom` | src/addrman.cpp:93-111 | swaps two places of the random order and the positions kept in the two records |
| `AddrMan.AddrMan.Delete` | src/addrman.cpp:113-125 | refines the deletion of an unreferenced entry |
| `AddrMan.AddrMan.ClearNew` | src/addrman.cpp:127-140 | refines the clearing of a new slot on the array |
| `AddrMan.AddrMan.ForgetNew` | src/addrman.cpp:142-157 | the loop over all new buckets removes every slot of the entry |
| `AddrMan.AddrMan.EvictOld` | src/addrman.cpp:161-182 | refines the eviction from a tried slot |
| `AddrMan.AddrMan.MakeTried` | src/addrman.cpp:142-188 | refines moving an entry to the tried table |
| `AddrMan.AddrMan.FindBucket` | src/addrman.cpp:211-228 | the search through all new buckets from a random one always finds the entry |
| `AddrMan.AddrMan.Good` | src/addrman.cpp:190-237 | refines Good_ on records and arrays changed in place |
| `AddrMan.AddrMan.Attempt` | src/addrman.cpp:307-324 | refines Attempt_ |
| `AddrMan.AddrMan.Connected` | src/addrman.cpp:489-507 | refines Connected_ |
| `AddrMan.AddrMan.Add` | src/addrman.cpp:239-305 | refines Add_, result included |
| `AddrMan.AddrMan.GetAddr` | src/addrman.cpp:468-487 | returns the entries drawn that are not terrible, in order, at most 2500 and at most 23 in a hundred of all; if it stops below both limits everything was drawn, so every entry that is not terrible is in the list |
| `CheckQueue.NextInv` | src/checkqueue.h:69-127 | every step of every thread keeps the accounting: nTodo is queued plus in-flight checks, idle and total count the threads, and a pending result is the conjunction of what was added |
| `CheckQueue.RunsRight` | src/checkqueue.h:69-127 | in every interleaving of a master and any number of workers the accounting holds, every returned result is right and no assert fires |
| `CheckQueue.MasterReturns` | src/checkqueue.h:69-127 | the master returns only with nothing queued or in flight, and returns true exactly when all checks added since the last Wait succeed; afterwards the queue is idle |
| `CheckQueue.BatchLengthFits` | src/checkqueue.h:105-116 | the batch formula takes at least one and never more checks than are queued |
| `CheckQueue.BatchLengthLargest` | src/checkqueue.h:105-116 | a batch is the largest that neither its limit nor an equal share of the queue forbids, and at least one check |
| `CheckQueue.AddWakes` | src/checkqueue.h:145-158 | adding several checks wakes every waiting worker, adding one check wakes at most the chosen one, and nothing else changes |
| `CheckQueue.Quiescent` | src/checkqueue.h:164-191 | with nTodo at zero and no master inside, all registered workers wait, and the idle test is true if and only if every check added in an open session succeeds; it is true whenever no session is open |
| `CheckQueue.FailedSessionNotIdle` | src/checkqueue.h:164-191 | a run in which the queue is drained and no master is inside, yet the idle test is false: a failed check and no Wait |
| `CheckQueue.StepProgress` | src/checkqueue.h:69-127 | while the master is inside, every step that changes anything lowers a measure |
| `CheckQueue.NoDeadlock` | src/checkqueue.h:69-127 | while the master is inside some thread can make progress: it is never left waiting without a notification |
| `CheckQueue.WaitEnds` | src/checkqueue.h:140-143 | so the number of such steps before Wait returns is bounded |
| `MerkleTree.WidthCovers` | src/merkleblock.h:66-68 | a node exists at a height exactly when it covers a leaf |
| `MerkleTree.Children` | src/merkleblock.cpp:92-98 | the leaves of a node are those of its left child followed by those of its right child, if it has one |
| `MerkleTree.DecodeSound` | src/merkleblock.cpp:120-154 | if a decoded subtree has the genuine hash, every extracted hash is a leaf below it, in leaf order |
| `MerkleTree.SiblingsDiffer` | src/merkleblock.cpp:146-149 | in a tree of distinct leaves two siblings never have the same hash, so the check against duplication never refuses a genuine tree |
| `MerkleTree.DecodeEncoded` | src/merkleblock.cpp:102-154 | decoding an encoded subtree, wherever it stands in the lists, gives its hash and its matches and uses exactly its bits and hashes |
| `MerkleSizes.BitsExact` | src/merkleblock.cpp:102-118 | the flag bits are twice the hashes less one, plus one for each node with a single child that is descended into |
| `MerkleSizes.HashesAtMostLeaves` | src/merkleblock.cpp:102-118 | never more hashes than leaves |
| `MerkleSizes.HashesAtMostMatches` | src/merkleblock.cpp:102-118 | at most one hash plus the height for each match |
| `MerkleSizes.LoneZero` | src/merkleblock.cpp:102-118 | no such node is descended into if and only if no match lies below one |
| `PartialMerkle.TreeHeight` | src/merkleblock.cpp:160-163 | the loop finds the least height with one node |
| `PartialMerkle.ExtractSound` | src/merkleblock.cpp:172-203 | for any bits and hashes: if extraction returns the genuine non-null root for the same number of leaves, the extracted hashes are leaves of the block, in leaf order |
| `PartialMerkle.ExtractBuilt` | src/merkleblock.cpp:156-203 | for distinct leaves, as many as 60 bytes each leave room for in a block of 4000000, and any mask, building and extracting (also after padding to whole bytes) returns the root and exactly the matched leaves in order, at increasing positions that are exactly those of the mask |
| `MerkleProofs.ExtractExact` | src/merkleblock.cpp:172-203 | for any bits and hashes: extraction returns the root of a block if and only if its leaves, at 60 bytes each, fit 4000000 bytes and the tree writes down some way into the tree of the block, with all hashes used and the flags padded to whole bytes; the matches are then exactly the leaves picked on that way |
| `MerkleLevels.SameRoot` | src/primitives/block.cpp:123-151 | the root of the recursive tree is the root found level by level, the last node of an odd level paired with itself |
| `MerkleLevels.SameRootDetected` | src/primitives/block.cpp:123-151 | two lists of leaves under trees of one height have the same root only if they are the same or one of them is reported as mutated |
| `MerkleLevels.BuildMerkleTree` | src/primitives/block.cpp:123-151 | the loops over one growing vector return the root, or the null hash without leaves, and the flag for two equal nodes at the end of a level |
| `PartialMerkle.SizeBounds` | src/merkleblock.h:34-50 | both bounds on the hashes, flag bits at most 2N - 1 plus the height, and equal to 2N - 1 if and only if no match lies below a node with a single child |
| `MerkleBytes.BytesExact` | src/merkleblock.h:31-50 | the promised size of 10 + ceil(32.25 N) bytes for N hashes is kept if and only if the matched nodes with a single child leave enough of the rounding, in terms of N and their number alone |
| `MerkleBytes.BytesBroken` | src/merkleblock.h:31-50 | for one leaf more than 1024 or any higher power of two, all matched, the serialized tree is larger than promised |
| `PartialMerkle.TwoNMinusOneFails` | src/merkleblock.h:47-47 | three leaves with the last one matched take more than 2N - 1 flag bits |
| `PartialMerkle.Pack` | src/merkleblock.h:100-103 | the bytes hold the bits, least significant first, and nothing else |
| `PartialMerkle.Unpack` | src/merkleblock.h:93-98 | reads every bit of the bytes |
| `PartialMerkle.MaskMeans` | src/merkleblock.h:93-103 | the mask of bit k is two to the k |
| `PartialMerkle.UnpackPacked` | src/merkleblock.h:88-105 | reading what was written gives the bits, padded with zeros to whole bytes |
| `PartialMerkle.PackUnique` | src/merkleblock.h:88-105 | the bytes of given bits are unique |
| `PartialMerkle.PartialMerkleTree.Build` | src/merkleblock.cpp:156-168 | the constructor builds the specified encoding |
| `PartialMerkle.PartialMerkleTree.Read` | src/merkleblock.h:88-105 | the deserialized object has the given hashes and the bits of the bytes |
| `PartialMerkle.PartialMerkleTree.TraverseAndBuild` | src/merkleblock.cpp:102-118 | appends exactly the encoding of the subtree to both vectors |
| `PartialMerkle.PartialMerkleTree.TraverseAndExtract` | src/merkleblock.cpp:120-154 | computes the decoding, advancing both counters, or sets the bad flag |
| `PartialMerkle.PartialMerkleTree.ExtractMatches` | src/merkleblock.cpp:172-203 | returns the specified root, null for every malformed tree, and the matches |
| `LimbValues.ValueInjective` | src/arith_uint256.h:20-30 | limbs are determined by the number they stand for |
| `LimbShifts.ShiftParts` | src/arith_uint256.cpp:21-53 | a 32-bit left shift drops exactly the bits that the matching right shift keeps, and leaves the low bits free |
| `BaseUint.ColumnFits` | src/arith_uint256.cpp:56-81 | no column of a product, with carry and old limb, exceeds 64 bits |
| `BaseUint.BaseUint.Set` | src/arith_uint256.h:88-96 | the limbs stand for the assigned number |
| `BaseUint.BaseUint.Add` | src/arith_uint256.h:135-145 | addition modulo 2^(32 n), also of a number to itself |
| `BaseUint.BaseUint.MulLimb` | src/arith_uint256.cpp:55-65 | multiplication by a 32-bit word modulo 2^(32 n) |
| `BaseUint.BaseUint.Increment` | src/arith_uint256.h:173-180 | adds one modulo 2^(32 n) |
| `BaseUint.BaseUint.Complement` | src/arith_uint256.h:69-75 | the complement to 2^(32 n) - 1 |
| `BaseUint.BaseUint.Negated` | src/arith_uint256.h:77-84 | the negative modulo 2^(32 n) |
| `BaseUint.BaseUint.Sub` | src/arith_uint256.h:147-151 | subtraction modulo 2^(32 n) |
| `BaseUint.BaseUint.CompareTo` | src/arith_uint256.cpp:109-119 | the order of the numbers |
| `BaseUint.BaseUint.Bits` | src/arith_uint256.cpp:172-184 | the number of binary digits |
| `BaseUint.BaseUint.GetLow64` | src/arith_uint256.h:245-249 | the number modulo 2^64 |
| `BaseUint.BaseUint.AddRow` | src/arith_uint256.cpp:72-79 | one row of the schoolbook product, modulo 2^(32 n) |
| `BaseUint.BaseUint.Mul` | src/arith_uint256.cpp:67-81 | the product modulo 2^(32 n); multiplying a number by itself in place gives zero, since the receiver is cleared first |
| `BaseUint.BaseUint.ShiftLeft` | src/arith_uint256.cpp:21-36 | multiplication by a power of two modulo 2^(32 n), for any shift |
| `BaseUint.BaseUint.ShiftRight` | src/arith_uint256.cpp:38-53 | the floor of the division by a power of two, for any shift |
| `BaseUint.BaseUint.SetBit` | src/arith_uint256.cpp:100-100 | setting a free bit adds its power of two |
| `BaseUint.BaseUint.Div` | src/arith_uint256.cpp:83-107 | the exact floor quotient for every nonzero divisor, also in place; a zero divisor is rejected after the receiver was cleared |
| `CompactTargets.OverflowExact` | src/arith_uint256.cpp:218-221 | the three-way overflow test holds exactly when mantissa times 256^(size - 3) is 2^256 or more |
| `CompactTargets.SetCompact` | src/arith_uint256.cpp:204-223 | the number modulo 2^256, the sign flag for a nonzero negative number, the overflow flag exactly for numbers that do not fit |
| `CompactTargets.GetCompact` | src/arith_uint256.cpp:225-248 | both asserts hold; the compact form decodes to at most the number, loses less than one part in 2^15, never overflows, and carries the sign exactly when asked for and nonzero |
| `CompactTargets.RoundsDown` | src/arith_uint256.cpp:225-248 | the same for numbers of any length |
| `CompactTargets.Stable` | src/arith_uint256.cpp:204-248 | encoding a decoded compact target again gives the same bits |
| `CompactTargets.CompactedMono` | src/arith_uint256.cpp:204-248 | cutting targets to compact form keeps their order |
| `CompactTargets.CompactMeans` | src/arith_uint256.cpp:204-223 | exponent, sign and mantissa read as a number: mantissa times 256^(size - 3), rounded down for sizes below three |
| `CompactTargets.CompactedLargest` | src/arith_uint256.cpp:204-248 | of all numbers with a compact form, the one a number is cut to is the largest that does not exceed it |
| `Retargeting.GetBlockProof` | src/pow.cpp:187-200 | floor(2^256 / (target + 1)), or zero for a negative, overflowing or zero target; no intermediate value wraps and no division by zero occurs |
| `Retargeting.NetworksValid` | src/chainparams.cpp:46-51 | the constants of the three networks satisfy the asserted bound and the ranges used below |
| `Retargeting.ClampBounds` | src/pow.cpp:58-61 | the timespan after dampening (division toward zero) is within the clamps |
| `Retargeting.DampedMeaning` | src/pow.cpp:54-61 | within the clamps exactly a quarter of the deviation is kept, rounded toward the plain timespan on both sides, and a later end never gives a shorter timespan |
| `Retargeting.CountsExactly` | src/consensus/params.h:52-54 | the timespan that counts, from the parameters and the timespan alone: a quarter of the deviation added to the plain timespan, not below (100 - up) hundredths of it and not above (100 + down) hundredths, each rounded down |
| `Retargeting.NextIs` | src/pow.cpp:48-80 | the next target is the least of the limit and the average divided by the plain timespan and multiplied with the timespan that counts |
| `Retargeting.NoWrap` | src/pow.cpp:65-67 | with an average within the limit the scaled target never reaches 2^256 |
| `Retargeting.RetargetBounds` | src/pow.cpp:48-80 | the next target is within the limit, at most the adjusted average, and at least the clamped share of it unless the limit applies |
| `Retargeting.CalculateNextWorkRequired` | src/pow.cpp:48-80 | computes the compact form of the target that 256-bit words give; with an average within the limit it is the compact form of the target that Retargeting.NextIs describes |
| `Retargeting.GetNextWorkRequired` | src/pow.cpp:21-46 | the loop sums the window; the limit is returned while the chain has no block before the window; Retargeting.NextInFull and ShortBranch say in full what is returned |
| `Retargeting.NextExact` | src/pow.cpp:21-80 | with all window targets within the limit, the 256-bit computation is the plain rule and the next target is within the limit |
| `Retargeting.NextInFull` | src/pow.cpp:21-80 | with the targets of the window within the limit, the next target is made of the average of the targets of the last blocks and the median times of the last block and the one before the window, by the rule of Retargeting.NextIs |
| `Retargeting.ShortBranch` | src/pow.cpp:21-46 | for a branch not longer than the window, and without any block, the limit |
| `Retargeting.LimitKept` | src/pow.cpp:21-80 | on every branch whose blocks carry the required bits, no target ever exceeds the limit |
| `Retargeting.RetargetsExactly` | src/pow.cpp:21-80 | so along every such branch nothing wraps and every retarget is the plain rule |
| `BlockIndexes.InvertsLowestOne` | src/chain.cpp:56-56 | n & (n - 1) turns off exactly the lowest one bit |
| `BlockIndexes.SkipsBack` | src/chain.cpp:59-68 | a skip goes strictly back |
| `BlockIndexes.BlockIndex.GetAncestor` | src/chain.cpp:70-91 | the walk over skip and parent pointers terminates at the block that the parent walk reaches, or null for a height out of range; where every entry but the first has its skip pointer, the number of rounds is exactly the function SkipWalk bounds |
| `SkipWalk.StepsBound` | src/chain.cpp:59-91 | between any two heights below 2^b the walk takes at most a quarter of b * b + 13 * b + 12 rounds |
| `SkipWalk.StepsGrow` | src/chain.cpp:59-91 | from height 2^k to height two it takes at least a quarter of k * k + 5 * k - 6 rounds, so that no multiple of the logarithm bounds it |
| `BlockIndexes.BlockIndex.BuildSkip` | src/chain.cpp:98-102 | the skip pointer is the ancestor at the skip height |
| `BlockIndexes.BlockTree.AddToBlockIndex` | src/main.cpp:4712-4735 | every tree of entries built this way has right heights and skip pointers, with no skip pointer missing; a known hash changes nothing |
| `ActiveChain.Chain.SetTip` | src/chain.h:457-468 | from a consistent chain, despite the early stop, the vector is exactly the branch of the new tip |
| `ActiveChain.Chain.FindFork` | src/chain.cpp:47-53 | a block of both the chain and the branch, none higher, and null only if they share none |
| `ActiveChain.Chain.GetLocator` | src/chain.cpp:18-45 | ancestors of the start, strictly descending with gaps of one and then doubling, ending at genesis; ActiveChain.EntryHeight has the heights |
| `ActiveChain.EntryHeight` | src/chain.cpp:18-45 | before genesis is reached, entry i is i blocks back for the first twelve entries, then nine more than 2^(i - 10) |
| `ActiveChain.LocatorIsShort` | src/chain.cpp:18-45 | at most twelve entries plus one for each doubling of the height |
| `Numerals.RecodeBack` | src/base58_codec.cpp:18-91 | changing the base of a numeral with its leading zeros and back is the identity, for any two bases |
| `Numerals.RecodeMeans` | src/base58_codec.cpp:18-91 | changing the base keeps the number and the zeros in front |
| `Base58.AlphabetDistinct` | src/base58_codec.cpp:14-14 | no character of the alphabet occurs twice or is a space, and the digit zero is the character one |
| `Base58.AlphabetMeans` | src/base58_codec.cpp:14-14 | the alphabet is all letters and digits but 0, O, I and l, in the order of their codes |
| `Base58.EncodedMeans` | src/base58_codec.cpp:62-91 | bytes and string stand for the same number, with as many zeros in front |
| `Base58.DecodeEncoded` | src/base58_codec.cpp:18-91 | decoding inverts encoding for all byte strings, with any spaces around |
| `Base58.EncodeDecoded` | src/base58_codec.cpp:18-91 | encoding inverts decoding for all words of the alphabet |
| `Base58.WordPadded` | src/base58_codec.cpp:20-22 | a word with spaces around it is read as that word |
| `Base58.WordIsPadded` | src/base58_codec.cpp:50-54 | nothing but a word of the alphabet with spaces around it is accepted |
| `Base58Codec.EncodeFits` | src/base58_codec.cpp:72-72 | 138/100 of the bytes plus one is always enough |
| `Base58Codec.DecodeFits` | src/base58_codec.cpp:30-30 | 733/1000 of the characters plus one is always enough |
| `Base58Codec.MultiplyAdd` | src/base58_codec.cpp:37-43 | the loop multiplies the buffer and adds a digit, with carry zero whenever the result fits |
| `Base58Codec.EncodeBase58` | src/base58_codec.cpp:62-91 | the assert on the carry holds and the string is the base-58 numeral with one character for each leading zero byte |
| `Base58Codec.DecodeBase58` | src/base58_codec.cpp:18-60 | the assert on the carry holds; accepts exactly the padded words of the alphabet and returns their bytes |
| `Base58Codec.EncodeBase58Check` | src/base58_codec.cpp:103-110 | the encoding of the bytes with their four checksum bytes |
| `Base58Codec.DecodeBase58Check` | src/base58_codec.cpp:112-128 | strips a right checksum and rejects everything else |
| `Base58Codec.CheckAccepts` | src/base58_codec.cpp:103-128 | what is encoded with a checksum is accepted and given back |
| `Base58Codec.CheckRejects` | src/base58_codec.cpp:103-128 | every accepted word is the encoding, with checksum, of what is returned |
| `VarInts.VarRead` | src/serialize.h:393-421 | what is written is read back and nothing after it is touched; a negative number leaves its low seven bits |
| `VarInts.VarUnique` | src/serialize.h:355-377 | every number has exactly one encoding |
| `VarInts.VarMeans` | src/serialize.h:355-377 | all bytes but the last are 128 or more, and their low seven bits, with one added to each place before the last, are the number to the base 128 |
| `VarInts.VarLength` | src/serialize.h:395-395 | the buffer for the digits is large enough for every width |
| `VarInts.GetSizeOfVarInt` | src/serialize.h:380-390 | the number of bytes that are written |
| `VarInts.WriteVarInt` | src/serialize.h:393-407 | the digits collected in the buffer and written in reverse are the encoding |
| `VarInts.ReadVarInt` | src/serialize.h:410-421 | the number read, modulo the width of the word, and the rest of the stream |
| `Amounts.AmountBack` | src/compressor.cpp:142-185 | decompression inverts compression for all amounts |
| `Amounts.WordBack` | src/compressor.cpp:142-185 | compression inverts decompression for all words, so it is a bijection |
| `Amounts.AmountMeans` | src/compressor.cpp:142-160 | for (10 n + d) 10^e with a digit d from 1 to 9 and e below nine the word is 1 + 10 (9 n + d - 1) + e, for multiples of 10^9 it ends in nine, and zero is zero |
| `Amounts.MoneyBack` | src/compressor.cpp:142-185 | for every valid amount of money both 64-bit computations are exact |
| `Amounts.CompressAmount` | src/compressor.cpp:142-160 | the assert on the last digit holds; the result modulo 2^64 |
| `Amounts.DecompressAmount` | src/compressor.cpp:162-185 | the result modulo 2^64 |
| `SpentMask.CalcMaskSize` | src/coins.cpp:180-196 | the number of mask bytes up to the last that is not zero, and how many are not zero |
| `SpentMask.SomethingLeft` | src/coins.h:179-179 | the flags and the mask are all empty exactly for pruned coins, so the assert holds for all others |
| `SpentMask.WriteMask` | src/coins.h:214-220 | each byte holds the availability of its eight outputs |
| `SpentMask.MaskCovers` | src/coins.cpp:180-196 | past the mask no output is available |
| `SpentMask.MaskRead` | src/coins.h:250-259 | counting down nonzero bytes stops exactly after the mask and gives the availability vector |
| `SpentMask.CodeBack` | src/coins.h:210-249 | the code word decodes to the coinbase flag, the first two availabilities and the number of nonzero bytes |
| `CoinsCodec.OutsRead` | src/coins.h:222-265 | the outputs are read back into their places |
| `CoinsCodec.CoinsRead` | src/coins.h:203-276 | reading a written unpruned record restores it, trailing spent outputs trimmed, and leaves the rest of the stream |
| `CoinsCodec.SameRecord` | src/coins.h:203-276 | the restored record is the same one if and only if it is trimmed, version and height are not negative, and only certificate coins carry certificate fields |
| `CoinsCodec.Serialize` | src/coins.h:203-235 | writes the specified bytes; the lemmas of CoinsFormat say in numbers which these are |
| `CoinsCodec.GetSerializeSize` | src/coins.h:173-200 | the number of bytes that Serialize writes |
| `CoinsCodec.Unserialize` | src/coins.h:238-273 | reads the specified record from any bytes, or fails when the stream runs dry |
| `CoinsFormat.CertFieldsWritten` | src/coins.h:203-235 | coins of version -5, or of its stored form 123, are written with the first backward transfer and the maturity height at the end |
| `CoinsFormat.NoFieldsWritten` | src/coins.h:203-235 | coins of the versions of transactions (1, 2, -3, -4) end with the height |
| `CoinsFormat.CertFieldsRead` | src/coins.cpp:129-134 | read back, the coins of a certificate have version 123 and both fields, and the rest of the stream is untouched |
| `CoinsFormat.NoFieldsRead` | src/coins.cpp:129-134 | read back, the coins of a transaction have no first backward transfer, and the maturity height of the record read into is left alone |
| `CoinsFormat.FixedMeans` | src/coins.h:203-235 | each of the two fields takes four bytes, lowest first, in two's complement |
| `CoinsFormat.FirstExample` | src/coins.h:66-78 | the documented bytes of a record whose second output is left, around any script |
| `CoinsFormat.SecondExample` | src/coins.h:81-100 | the documented bytes of a coinbase record whose outputs 4 and 16 are left, around any scripts |

## Left out

- `ChainState.ChainState.ConnectBlock`: coins created and spent by transactions and certificates are not part of the model; of the coins only the backward transfers of superseded and ceased certificates change. That a block's certificates have hashes of their own is required.
- `ChainState.ChainState.ConnectTip`: the same coins are left out.
- `ChainState.ChainState.DisconnectBlock`: the undo data are required to be those that connecting the block wrote; a view that has connected the same block before is not covered.
- `ChainState.ChainState.DisconnectTip`: the same undo data are required.
- `ChainState.ChainState.ConnectThenDisconnect`: the same coins are left out.
- `ChainState.ChainState.NullifyBackwardTransfers`: coins without a first backward transfer, which no certificate makes, are excluded; the loop would start before the outputs.
- `ChainState.ChainState.RestoreBackwardTransfers`: undo data that would put an output before the first one are excluded.
- `ChainState.ChainState.HandleSidechainEvents`: two sidechains with the same certificate, or a certificate with the coins of a transaction, are excluded; ConnectBlock keeps both conditions.
- `ChainState.ChainState.RevertSidechainEvents`: the undo data are required to be those that handling the events wrote.
- `Ledger.RevertOpFollows`: where a sidechain to be uncreated is not listed as ceasing at its scheduled height, which no reachable ledger shows, nothing is said.
- `ChainState.ChainState.ApplyTransfer`: minimum fees of forward transfers and requests are checked elsewhere in the node; only the recorded fee list is kept.
- `SidechainConservation.ApplicableCertApplied`: end-epoch commitment roots, proofs and the field-element data of certificates are not modelled.
- `AddrSaved.Serialize`: works on values, not on the arrays, and leaves out the key, the format version and the mark on the bucket count.
- `AddrSaved.Unserialize`: files whose lists are shorter than their counts, which end the stream, and files of another format, with another number of buckets, are not modelled; it reads into an empty manager.
- `AddrLives.LifeConsistent`: that the key is not null, the last condition of Check_, is not modelled, since placement is any function.
- `AddrMan.AddrMan.MakeTried`: the two counters change together with the table instead of at the end of the method; the state after the method is the same.
- `AddrMan.AddrMan.Add`: the chance of refusing a further reference is a Boolean parameter.
- `CheckQueue.WaitEnds`: the scheduler is assumed to run some thread that can progress; 32-bit wrap-around of nTodo and interruption of threads are not modelled.
- `PartialMerkle.PartialMerkleTree.TraverseAndExtract`: what the counters are after a malformed tree was found is not stated.
- `PartialMerkle.PartialMerkleTree.Build`: a block without leaves is excluded, and the number of leaves does not wrap at 32 bits.
- `Retargeting.CalculateNextWorkRequired`: parameters satisfy the bound asserted for the networks; differences of times do not overflow 64 bits.
- `Retargeting.GetNextWorkRequired`: the median time of a block is a parameter; blocks at the same height of other branches play no part.
- `BlockIndexes.BlockTree.AddToBlockIndex`: chain work, delay and sidechain fields of an entry are not modelled, and no header names its own hash.
- `ActiveChain.Chain.GetLocator`: entries stand for their hashes; the step does not overflow 32 bits.
- `Base58Codec.DecodeBase58`: a string has no null character inside; spaces are those of the C locale.
- `Base58Codec.EncodeBase58Check`: the hash is a parameter that gives 32 bytes.
- `VarInts.ReadVarInt`: for signed integers, overflow on malformed input is taken as two's complement by the reader of the field.
- `CoinsCodec.Serialize`: the serialization of scripts is a parameter that reads back what it writes.
- Cryptography: SNARK proofs, commitment trees, field elements, Equihash, signatures and hash functions.
- Storage and I/O: LevelDB batches, block files and the address, maturity and transaction indexes.
- Anchors and JoinSplits, and their part of the caches.
- Selection of addresses by chance, bloom filters and block assembly, which use floating point or randomness.
- Memory-usage counters, logging and ban flags.
- RPC, HTTP, command line, alerts and metrics.
