# sunyata: a verified model

sunyata is a proof-of-work blockchain whose nodes keep no table of unspent outputs. They keep a
Utreexo accumulator: one Merkle root per set bit of the number of leaves, where each leaf is an element that is spent
or unspent. Proofs live outside, in wallets, pools and blocks, and are patched as blocks come and go.

This project models the accumulator, the multiproofs of compressed blocks, consensus, the chain manager, the wide
arithmetic, the wire format and the miner's choice of transactions, and proves what they are for.
`dafny verify dfyconfig.toml` checks all of it.

## How the model is built

* **Hashes** (`Types`) are terms: two hashes are equal only if they were computed from the same thing. This is what
  "collision-free" means, and no more is assumed of SHA-512/256. Signatures are terms in the same way.
* **Specification layer** (`Merkle`, `Forest`, `History`). Behind an accumulator stands the plain list of all leaf
  hashes. `Root`, `Path` and `LeafPath` are defined on that list, and everything the code keeps or patches is proved
  equal to them. Roots are compared only in slots whose bit is set, since merging leaves old slots as they were.
* **Imperative layer.** What the program changes in place is changed in place here: the accumulators' roots, the
  leaves of a batch (`array<ElementLeaf>`), an element someone holds (`ElementRef`), the store, scratch chains, the manager,
  the encoder's and decoder's buffers. Each method is proved against a specification.
* **What hashes read as** (`Reading`), and **where bytes stand** (`Layout`): the definitions of roots and encodings are checked against
  the leaves and the offsets that they come to.
* **Ledgers** (`Ledger`, `LedgerInvariant`, `LedgerTheorems`). `FullState` is the full list of elements and blocks that a
  compact `State` stands for. Validity and effect of blocks are stated on it; `Validation` and `Update` prove that a node that
  keeps only roots accepts and computes exactly that.
* **The tree of ledgers** (`ChainTree`, `ReorgPath`, `Manager`). The manager carries a ghost ledger for every stored
  checkpoint. A chain is the list of indices from genesis to a block, which turns forks, ancestors and paths into statements on
  common prefixes.
* **The rounds of `AddBlocks`** (`Rounds`) are told from the state before the call, which says of every list of blocks how far it is
  added and how it ends.
* **Inputs at which something fails** (`Examples`) are built from blocks without transactions, all valid; where it takes more than
  one call, a method makes the calls on a new node, and its contract states what comes of them.

Words are natural numbers, with wrap-around written out wherever the code can wrap (`Words`, `Currency`, `Work`, block heights
below zero, time differences). The accumulators are bounded by 2^62 leaves; `ChainTree.NextIsRoomy` shows that chains
below height 2^40 stay within that.

## What the proofs found

* `HashRequiringWork` is documented as returning the lowest of the IDs that require the same work (sunyata.go:355-357). It returns
  the greatest ID that requires at least the given work (`Work.TargetIsGreatest`), and this is the lowest with its work exactly when
  it is 1 or (w + 1) · (t - 1) is at most 2^256, for the target t and its work w (`Work.TargetIsLowest`). It is not for one hash
  (`Work.LowerTarget`).
* The difficulty can fall to zero, for which no target exists: exactly when D · 2016 · 10 min, modulo 2^256, is less than the
  clamped time the period took (`Headers.DifficultyVanishes`). This happens to difficulties of 3 and less in periods that take four
  times too long (`Headers.SmallVanishes`), and to a difficulty of 2^239 whatever the time (`Headers.HugeVanishes`).
* A block's ID covers whole seconds only. Two valid children with one ID lead to the same ledger exactly when their timestamps
  agree (`LedgerTheorems.IDSettlesEffect`), and nearly every valid block has such a sibling (`LedgerTheorems.TwoForms`). A store that
  overwrites one by the other stays right exactly if the timestamps agree or the block has no children
  (`ChainTree.StoringIsSafe`); the manager's methods ask that they agree. They always do for whole seconds
  (`ChainTree.WholeSecondsAgree`), which is what the decoder and `CurrentTimestamp` produce.
* The compressed encoding drops the proof data of ephemeral inputs and the part of the timestamp below a second. A decoded block is
  the encoded one exactly when there was nothing to lose (`BlockCodec.RoundedIsSame`).
* A tip that was the heaviest checkpoint is still the heaviest after `AddTipBlock` exactly if its total work and its difficulty come
  to less than 2^256 (`Manager.Manager.AddTipBlock`). Blocks whose IDs are 1 and 2 have enough work for a difficulty of 2^255, and
  after the second of them the total work is 0 (`Examples.WorkFallsBack`).
* `AddBlocks` looks only at the first block's index (chain/manager.go:280), and it applies any valid block, also one whose header is
  not in the chain. It breaks off exactly if in some round the chain overtakes the tip, is not the tip's own chain, and is no longer
  that of its headers (`Manager.Manager.AddBlocks`, `Manager.Manager.AddBlock`). If every block adds work, this is decided in the first
  round in which the chain has more work than the tip had (`Rounds.Run.FirstOvertake`). The best list, the stored ledgers and the
  subscribers are right in any case, but the tip is then no longer the heaviest block; otherwise it is. For consecutive blocks of the
  chain it does not happen.
* Where it breaks off, it returns an error exactly if the chain's headers are stored as one chain above its base up to one that is not
  stored at all, and panics if there is none such (chain/manager.go:412-424, `Manager.Manager.ReorgTo`). `Examples.ReorgPanics` and
  `Examples.ReorgFails` send a new node the headers and blocks for each. It panics as well if the chain already has more blocks than
  it is given (chain/manager.go:291-292), and in no other case (`Manager.Manager.AddTo`).
* `reorgTo` goes back to the base of the scratch chain even if part of that chain is on the best chain. Its walk is the shortest
  exactly if the first block of the scratch chain is not (`Manager.Manager.ReorgTo`). In `Examples.LongWayRound` it makes five steps
  where three would do; `reorgPath` always finds the shortest way (`ReorgPath.Shortest`).
* The comment at merkle/accumulator.go:20 names RFC 6961; the leaf and node prefixes are those of section 2.1 of RFC 6962.

## Model

| member | source | states |
|---|---|---|
| Bits.MergeMeaning | merkle/accumulator.go:24-25 | two positions have merge height at most k just when they agree once their k low bits are cleared |
| Bits.ClearBounds | merkle/accumulator.go:27-28 | clearing k bits gives the multiple of 2^k that begins the block of 2^k positions around x |
| Bits.TrailingZerosOfPow2 | merkle/accumulator.go:256 | the height that recompute reads off the width of a block of 2^k positions is k |
| Bits.TreeOf | merkle/accumulator.go:390 | the tree of leaf p in a forest of n leaves has height mergeHeight(n, p) - 1, a set bit of n, and holds p |
| Merkle.ComputeProofRoot | merkle/accumulator.go:44-54 | the loop over a proof folds it into the root that the recursive definition gives |
| Merkle.PathIsProof | merkle/accumulator.go:42-54 | completeness: the path of any leaf, folded, is the root of its block |
| Merkle.ProofIsPath | merkle/accumulator.go:42-54 | soundness: a proof that folds to the root of a block is the path of the position its index lands on, and the leaf is what stands there |
| Merkle.RootLocal | merkle/accumulator.go:34-40 | a root depends on the leaves of its block only |
| Reading.RootReads | merkle/accumulator.go:34-40 | a root is a perfect tree of hashes, and its leaves from left to right are those of its block |
| Reading.ForestReads | merkle/accumulator.go:87-119 | an accumulator's live roots, read from the highest down, are the list of all leaves |
| LeafOrder.SortLeaves | merkle/accumulator.go:284-289 | sorting leaves by proof length and position keeps the same leaves, orders them, and keeps positions distinct |
| LeafOrder.GroupByTree | merkle/accumulator.go:290-297 | the slices taken off the sorted leaves are exactly the leaves of each tree |
| Sorting.Search | merkle/multiproof.go:12-15 | binary search splits ordered leaves at a position |
| Recompute.RecomputeRoot | merkle/accumulator.go:254-281 | recompute terminates, never indexes outside a proof, returns the root of the block with its leaves overwritten, and sets each leaf's proof below that height to its new path |
| Accumulator.MergeOne | merkle/accumulator.go:210-244 | when two trees merge under a new leaf, each proof gains exactly the root of the other half |
| Accumulator.MergeDone | merkle/accumulator.go:203-209 | at the first free height every leaf's merged height is that of its tree in a forest of one more leaf |
| Accumulator.InsertRoot | merkle/accumulator.go:204-208 | writing the merged root into the free slot keeps every live root right, whatever dead slots hold |
| Accumulator.ElementAccumulator.constructor | merkle/accumulator.go:98-103 | an accumulator copied from a state has its roots and its number of leaves |
| Accumulator.ElementAccumulator.Value | merkle/accumulator.go:112-119 | the live roots of an accumulator are a function of the list it stands for |
| Accumulator.ElementAccumulator.ExtendProofs | merkle/accumulator.go:216-225 | the backward scan appends to each added leaf's proof the root of the other tree, and to no other leaf's |
| Accumulator.ElementAccumulator.GrowTrees | merkle/accumulator.go:226-240 | the scan over the original trees records what each of them gains |
| Accumulator.ElementAccumulator.AddLeaf | merkle/accumulator.go:194-246 | one round of the batch keeps roots, proofs and growth right |
| Accumulator.ElementAccumulator.AddLeaves | merkle/accumulator.go:188-248 | batch append refines rebuilding: the roots are those of the extended list, every added leaf has its position and path, and treeGrowth[h] is exactly the suffix each leaf of the old tree of height h must append |
| Accumulator.ElementAccumulator.UpdateLeaves | merkle/accumulator.go:250-314 | in-place update refines list update: for distinct leaves with right proofs the roots are those of the list with those leaves replaced, and the result holds every change with its new path |
| ElementProofs.PatchedIsPath | merkle/accumulator.go:349-356 | patching a proof from the closest updated leaf gives the path in the updated list |
| ElementProofs.ProofUnchanged | merkle/accumulator.go:336-339 | with no updated leaf in its tree a proof stays right |
| ElementProofs.UpdateProof | merkle/accumulator.go:334-357 | whatever leaves were updated, the path in the old list becomes the path in the new one |
| ElementProofs.GrownIsPath | merkle/accumulator.go:374 | a path with its tree's growth appended is the path in the grown forest |
| ElementProofs.ApplyBlock | merkle/accumulator.go:316-322 | the accumulator stands for the overwritten and extended list, and the update carries proofs there |
| ElementProofs.RevertBlock | merkle/accumulator.go:324-332 | the update collected from a block's old leaves leads back from the overwritten list |
| ElementProofs.ElementApplyUpdate.UpdateElementProof | merkle/accumulator.go:366-375 | applying a block keeps every outside proof alive, whether or not its leaf was updated and however its tree grew |
| ElementProofs.ElementRevertUpdate.UpdateElementProof | merkle/accumulator.go:384-397 | reverting a block turns the path after it into the path before it, for every element that was there |
| ElementProofs.ApplyThenRevert | merkle/accumulator.go:326-397 | apply followed by revert gives back exactly the original element |
| ElementProofs.MembershipIsExact | merkle/accumulator.go:172-174 | containsLeaf holds just when the list has that element with that spent flag at that position and the proof is its path |
| History.HistoryIsExact | merkle/accumulator.go:417-420 | the history contains an index just when it is on the chain and the proof is its path |
| History.HistoryGrowth | merkle/accumulator.go:455-463 | how the path of an earlier block changes when one block is appended |
| History.HistoryApplyUpdate.UpdateProof | merkle/accumulator.go:455-463 | an earlier block's path becomes its path in the longer history |
| History.HistoryAccumulator.MergeUp | merkle/accumulator.go:424-432 | the walk up from the new leaf gathers its path and the roots of its right spine |
| History.HistoryAccumulator.ApplyBlock | merkle/accumulator.go:422-435 | the history stands for the chain with the index appended, and the update carries earlier proofs over it |
| History.RevertProof | merkle/accumulator.go:471-478 | cutting at the merge height of the block's height gives the path before it |
| Multiproof.LeavesByTree | merkle/multiproof.go:17-35 | every input that is not ephemeral is in the list of its tree, once and in order |
| Traversal.HalfNodes | merkle/multiproof.go:41-48 | the halves of every node a traversal can reach are nodes one lower, also where i + j wraps around; so the recursions end, and the heights they read off are right |
| Traversal.HashesFillSize | merkle/multiproof.go:38-85 | for any ordered leaves the traversal that writes hashes writes exactly as many as the one that counts them |
| Traversal.SizeIsNeeded | merkle/multiproof.go:38-52 | in a forest, a node's size is the number of its maximal subtrees without inputs |
| Traversal.HashesAreNeeded | merkle/multiproof.go:66-85 | in a forest, with paths as proofs, what is written is exactly the roots of those subtrees, in order |
| Multiproof.MultiproofSize | merkle/multiproof.go:37-62 | for any inputs with proofs shorter than 64: the number of hashes in their multiproof, never more than the sum of the proof lengths |
| Multiproof.ComputeMultiproof | merkle/multiproof.go:64-95 | for any such inputs it indexes no proof out of range and writes as many hashes as MultiproofSize says |
| Multiproof.InForest | merkle/multiproof.go:64-95 | for inputs of a forest, that list is the multiproof that the forest and the spent positions determine |
| Reading.MultiproofIsSpared | merkle/multiproof.go:64-95 | each hash of a multiproof is the root of a block without an input whose next larger block in the tree has one |
| Reading.MultiproofAscends | merkle/multiproof.go:64-95 | they come by tree, the smallest first, and from left to right in each |
| Reading.MultiproofCovers | merkle/multiproof.go:64-95 | every other leaf of a tree with an input is below one of them |
| Traversal.Expand | merkle/multiproof.go:101-122 | for any ordered leaves it consumes exactly the hashes its node takes and touches only their proofs; in a forest it restores them and finds the root |
| Multiproof.ExpandMultiproof | merkle/multiproof.go:97-133 | for any such inputs it consumes exactly as many hashes as MultiproofSize says, keeps all lengths, and leaves ephemeral proofs alone; with inputs and hashes from a forest every path is restored |
| Multiproof.CompressThenExpand | merkle/multiproof.go:64-133 | the round trip: merged, zeroed and expanded proofs come back as they were, and MultiproofSize is the length of the list |
| Headers.ActualDelta | consensus/update.go:12-17 | the time that a period counts as: what it took, but no less than half a week and no more than eight weeks |
| Headers.DifficultyFollowsTime | consensus/update.go:10-31 | every 2016 blocks the new difficulty q satisfies q · t <= D · E < (q + 1) · t, with the product modulo 2^256, for the two weeks E and the counted time t, and the header's time is remembered; all other headers leave both alone |
| Headers.SlowerIsEasier | consensus/update.go:10-31 | the longer a period took, the lower the next difficulty |
| Headers.DifficultyBounds | consensus/update.go:10-19 | the difficulty never grows by more than a factor of four, and never falls by more as long as the product does not overflow |
| Headers.DifficultyVanishes | consensus/update.go:18 | the difficulty becomes zero exactly when the product, modulo 2^256, is less than the clamped duration |
| Headers.SmallVanishes | consensus/update.go:10-19 | inputs at which it does: a difficulty of 3 or less and a period four times too long |
| Headers.HugeVanishes | consensus/update.go:10-19 | and others: a difficulty of 2^239, whatever the duration, since the product wraps to zero |
| Headers.TotalWraps | consensus/update.go:27 | a header makes the total work no less exactly when total work and difficulty come to less than 2^256 |
| Headers.WindowSlides | consensus/update.go:33-38 | PrevTimestamps stays the last eleven timestamps of the chain, oldest first |
| Headers.MedianSplits | consensus/validation.go:22-31 | half of the recent timestamps are no later than the median, and half no earlier; it is the middle one, or half way between the two middle ones |
| Validation.ContainsIsExact | merkle/accumulator.go:176-186 | the roots of a compact state know exactly the unspent and the spent elements of the ledger |
| Validation.ValidateStateProofs | consensus/validation.go:100-114 | accepted just when every input is ephemeral or spends an unspent element with its path; the spent-output error is given only for a spent one |
| Validation.ValidateCurrencyValues | consensus/validation.go:46-73 | accepted just when no output is zero and the sum of all values fits 128 bits |
| Validation.ValidateTimeLocks | consensus/validation.go:75-83 | accepted just when every parent is mature |
| Validation.OutputsEqualInputs | consensus/validation.go:85-98 | accepted just when inputs equal outputs plus fee; the sums cannot overflow after the value check |
| Validation.ValidateSpendPolicies | consensus/validation.go:116-126 | accepted just when every key hashes to its parent's address and every signature is that key's over the transaction's input IDs, outputs and fee |
| Validation.ValidateTransaction | consensus/validation.go:128-147 | accepted just when the transaction is valid for the full ledger |
| Validation.ValidateEphemeralOutputs | consensus/validation.go:149-191 | together with the double-spend check: accepted just when every ephemeral input spends an output of an earlier transaction |
| Validation.ValidateNoDoubleSpends | consensus/validation.go:193-204 | accepted just when no two inputs of the set name one element |
| Validation.ComputeBlockWeight | consensus/state.go:96-102 | the weight of a block is four times its inputs and once its outputs |
| Validation.ValidateTransactionSet | consensus/validation.go:206-221 | accepted just when the whole set is valid for the full ledger |
| Validation.ValidateBlock | consensus/validation.go:228-238 | a node that keeps only roots accepts exactly the blocks that are valid for the full ledger; a bad header or commitment is what is reported whenever there is one |
| LedgerInvariant.NextIsWellFormed | consensus/update.go:122-159 | a valid block keeps element IDs distinct, sources known and the chain linked |
| LedgerInvariant.GenesisIsWellFormed | consensus/update.go:161-167 | a genesis block on the empty ledger establishes the invariant |
| LedgerInvariant.NewSource | sunyata.go:152-167 | no element of the ledger comes from a transaction of a new valid block |
| LedgerInvariant.NewBlockID | sunyata.go:225-233 | a valid block's ID is not on its chain yet |
| LedgerInvariant.EffectByIDs | consensus/update.go:125-150 | a block's effect on positions is its effect on IDs: what its inputs name becomes spent, among old and new elements, and nothing else changes |
| LedgerInvariant.FreshDistinct | consensus/update.go:57-90 | the IDs a valid block creates are distinct from each other and from all earlier ones |
| LedgerTheorems.ChainIsWellFormed | consensus/update.go:122-159 | the invariant holds along every chain of valid blocks |
| LedgerTheorems.SpentForever | consensus/validation.go:100-114 | what is spent stays spent over every valid chain |
| LedgerTheorems.SpentOnce | consensus/validation.go:193-204 | no ID that an earlier block of a valid chain spends is named by a later one, ephemeral or not |
| LedgerTheorems.SpendsAreSigned | consensus/validation.go:116-126 | in a valid block every input is signed, with the key behind its parent's address, over exactly its transaction's input IDs, outputs and fee |
| LedgerTheorems.OwnersSign | consensus/validation.go:116-126 | whatever a valid block spends, of the ledger or of its own, its owner has signed for in that block |
| LedgerTheorems.OwnersSigned | consensus/validation.go:116-126 | over any valid chain an element is spent only if its owner signed for that in one of the blocks |
| LedgerTheorems.OneSignature | consensus/state.go:131-149 | a signature never authorises two transactions with different IDs, on whatever chains |
| LedgerTheorems.SignatureOnce | consensus/state.go:131-149 | on one chain no signature is good for two blocks |
| LedgerTheorems.WorthMoves | consensus/update.go:42-90 | whatever worth is given to outputs, a valid block adds that of its miner's reward and its outputs, and takes away that of its inputs |
| LedgerTheorems.BalanceMoves | consensus/update.go:42-90 | a valid block changes what an address holds by what is paid there less what is spent from there, and for its miner's address by the reward |
| LedgerTheorems.ValueIsConserved | consensus/validation.go:46-98 | a valid block changes the unspent total by exactly its reward less its fees |
| LedgerTheorems.ChainValue | consensus/update.go:57-67 | over any valid chain the unspent total and all fees come to exactly the genesis outputs and the rewards |
| LedgerTheorems.RewardsLimit | consensus/state.go:72-77 | the rewards of any number of blocks come to at most 210000 · 10^11 |
| LedgerTheorems.RewardHalves | consensus/state.go:72-77 | the reward is 50 coins below height 210000 and halves every 210000 blocks |
| LedgerTheorems.SupplyIsBounded | consensus/state.go:72-77 | the supply never exceeds the genesis outputs and that amount |
| LedgerTheorems.WorkIsDone | consensus/validation.go:38-39 | the total work a chain claims never exceeds the work its block IDs required |
| LedgerTheorems.TimeMovesOn | consensus/validation.go:40-41 | at least half of the recent blocks are no later than a valid next one |
| LedgerTheorems.ElementsPersist | consensus/update.go:42-55 | over any valid chain an element keeps its ID, output, maturity and position |
| LedgerTheorems.RewardsMature | consensus/state.go:79-83 | no valid chain spends a miner's reward before 144 blocks have passed |
| LedgerTheorems.IDSettlesEffect | sunyata.go:225-233 | two valid children with one ID lead to one ledger exactly when their timestamps agree |
| LedgerTheorems.TwoForms | sunyata.go:225-233 | such children exist: any valid block with its timestamp one nanosecond later, within the same second, is valid, has the same ID and leads to another ledger |
| LedgerTheorems.IDCovers | sunyata.go:225-233 | two headers have one ID exactly if they agree in nonce, whole seconds and commitment |
| LedgerTheorems.CommitmentCovers | consensus/state.go:104-129 | two commitments are equal exactly for the same miner and transactions and the same state, every field of it, with times cut to seconds |
| Update.UpdatedInBlock | consensus/update.go:42-55 | the parents of the inputs that are not ephemeral, in order, with their leaves |
| Update.CreatedInBlock | consensus/update.go:57-90 | field by field: first the miner's reward, to the miner's address and mature after 144 blocks, then every transaction output with its transaction's ID and its place there |
| LedgerInvariant.CreatedExactly | consensus/update.go:57-90 | the same of the elements that join the ledger |
| Update.EphemeralSpends | consensus/update.go:134-141 | the IDs that are spent in the block that creates them |
| Update.LeavesAreCurrent | consensus/validation.go:100-114 | validation justifies application: the leaves given to updateLeaves have right paths and distinct positions |
| Update.LeavesOverwrite | consensus/update.go:42-55 | those leaves lead from the ledger's list to the one with the inputs spent, and with the flag reversed back again |
| Update.CreatedComplete | consensus/update.go:134-144 | the created leaves, spent at once where an ephemeral input names them, complete the next ledger's list |
| Update.HeaderEffect | consensus/update.go:21-40 | applying a header to the compact state gives the compact state of the next ledger |
| Update.ApplyBlock | consensus/update.go:122-159 | the new state is the compact form of the ledger after the block, the element and history updates lead there, and each new element has its ID, output, maturity and position, which are stated field by field, and its path |
| Update.GenesisUpdate | consensus/update.go:161-167 | from the zero state a genesis block gives the compact form of the ledger after it |
| Update.WasSpentIsExact | consensus/update.go:103-111 | OutputElementWasSpent holds for an element of the ledger just when the block spent it |
| Update.WasRemovedIsExact | consensus/update.go:180-184 | OutputElementWasRemoved holds for an element just when the parent's ledger does not have its position |
| Update.RevertBlock | consensus/update.go:195-211 | the update keeps the parent's state and leads proofs back to it |
| Update.CarryForward | merkle/accumulator.go:366-375 | an element proved in a ledger is proved in the one after the block |
| Update.CarryBack | merkle/accumulator.go:384-397 | an element that was there before a block is proved in the earlier ledger after the revert |
| Update.UpdateAppliedProofs | consensus/update.go:113-120 | the inputs of a waiting transaction stay provable when a block is applied |
| Update.UpdateRevertedProofs | consensus/update.go:186-193 | the inputs of a waiting transaction that were there before stay provable when a block is reverted |
| Store.EphemeralStore.constructor | internal/chainutil/store.go:75-80 | a new store holds one checkpoint, which is the best list |
| Store.EphemeralStore.AddCheckpoint | internal/chainutil/store.go:24-27 | a checkpoint is stored under its state's index, replacing what was there |
| Store.EphemeralStore.GetCheckpoint | internal/chainutil/store.go:30-36 | found just when stored |
| Store.EphemeralStore.GetHeader | internal/chainutil/store.go:39-42 | found just when stored |
| Store.EphemeralStore.ExtendBest | internal/chainutil/store.go:45-51 | the best list grows by a stored index |
| Store.EphemeralStore.RewindBest | internal/chainutil/store.go:54-57 | the best list loses its last index |
| Scratch.HeaderIndex | consensus/scratch.go:19-29 | after valid headers the state's index is that of the last one, as many heights above the base |
| Scratch.HeaderParent | consensus/scratch.go:46-56 | each header's parent index is the index before it, which is why Index need not hash |
| Scratch.HeaderPromise | consensus/update.go:21-40 | what a header does to the state is what its block does, accumulators aside, if their timestamps agree |
| Scratch.ScratchChain.constructor | consensus/scratch.go:115-122 | a new scratch chain has no headers and stands at its base |
| Scratch.ScratchChain.Index | consensus/scratch.go:46-56 | the index at any height from the base to the tip |
| Scratch.ScratchChain.Contains | consensus/scratch.go:96-103 | holds just for the indices of the chain's headers |
| Scratch.ScratchChain.Unvalidated | consensus/scratch.go:105-113 | exactly the indices whose blocks are missing, lowest first |
| Scratch.ScratchChain.AppendHeader | consensus/scratch.go:19-29 | a header is appended just when it is valid after the ones before it |
| Scratch.ScratchChain.ApplyBlock | consensus/scratch.go:31-44 | a block is applied just when there are headers left and it is a valid child of the valid tip, and the chain then stands for the ledger after it; if its header is one of the chain's, the headers' promise is kept |
| Scratch.ScratchChain.PromiseKept | consensus/scratch.go:86-94 | once fully validated, the headers' work, difficulty and timestamps are those of the blocks |
| ChainTree.NextIsRoomy | consensus/state.go:85-102 | the weight limit bounds the elements of a chain, so that below height 2^40 no accumulator overflows |
| ChainTree.Ancestor | consensus/state.go:152-155 | the chain to a stored block consists, from the base on, of stored blocks, each with its own part of the chain |
| ChainTree.ParentOfID | sunyata.go:217-233 | a block's ID settles its parent |
| ChainTree.Grow | internal/chainutil/store.go:24-27 | storing a valid block, also over another form of itself with its timestamp, keeps every stored ledger and the tree |
| ChainTree.StoringIsSafe | internal/chainutil/store.go:24-27 | the tree stays right exactly if the form that is replaced has the same timestamp, or no children |
| ChainTree.UnsafeForm | internal/chainutil/store.go:24-27 | every stored block that has a child, and is not at the very end of its second, has another valid form that must not replace it |
| ChainTree.WholeSecondsAgree | encoding.go:70-71 | two forms with whole seconds always have the same timestamp |
| ChainTree.WalkLength | chain/manager.go:500-546 | no walk between parents and children is shorter than the distance over the last common block |
| ChainTree.DetourLength | chain/manager.go:447-489 | going over the base of a chain is never shorter, and as short exactly unless the two chains agree beyond the base |
| ReorgPath.Rewind | chain/manager.go:506-515 | parent-chasing fails just when an index is not stored |
| ReorgPath.FindAncestor | chain/manager.go:517-538 | the three loops terminate, and between stored indices end at the last common block |
| ReorgPath.ReverseList | chain/manager.go:540-544 | the swaps reverse the list |
| ReorgPath.FindPath | chain/manager.go:500-546 | between stored indices: consecutive parents down to the last common block and consecutive children up to b; otherwise no path, unless nothing moves or it would pass below the base |
| ReorgPath.Disjoint | chain/manager.go:531-538 | no block is both reverted and applied |
| ReorgPath.Shortest | chain/manager.go:500-546 | no walk from a to b is shorter |
| Manager.Subscriber.ProcessChainApplyUpdate | chain/manager.go:43-49 | what a subscriber is owed: a child of the block it stands at, and an update that leads on from its ledger |
| Manager.Subscriber.ProcessChainRevertUpdate | chain/manager.go:43-49 | a revert names the block the subscriber stands at, and leads back to its parent's ledger |
| Manager.NotifyApply | chain/manager.go:437-442 | every subscriber moves to the next ledger |
| Manager.NotifyRevert | chain/manager.go:398-403 | every subscriber moves back to the parent's ledger |
| Manager.Manager.constructor | chain/manager.go:650-656 | a manager over a consistent store has the manager invariant |
| Manager.Manager.RevertTip | chain/manager.go:384-410 | the tip, the best list and every subscriber move to the parent |
| Manager.Manager.ApplyTip | chain/manager.go:412-445 | for any index: the tip, the best list and every subscriber move to it just when it is a stored child of the tip; otherwise nothing moves |
| Manager.Manager.Rebase | chain/manager.go:448-467 | from a scratch chain's base back to the last block that it has in common with the best chain, and the way up again |
| Manager.Manager.RevertTo | chain/manager.go:469-474 | the tip moves back to a block of the best chain |
| Manager.Manager.ApplyTo | chain/manager.go:476-488 | the tip follows the rebased part and then the headers of the scratch chain; it arrives at the valid tip exactly if its block and those below it are the headers', and otherwise ends with an error exactly if the headers are stored as one chain up to one that is not stored, or else panics |
| Manager.Manager.ReorgTo | chain/manager.go:447-489 | only legal steps are made, whatever the scratch chain holds; the tip, the best list and every subscriber end at its valid tip exactly if that block and those below it are the headers', and in the shortest way exactly unless the chain's own first block is on the best chain; otherwise it is an error exactly if the headers are stored as one chain up to one that is not stored, and a panic if there is none such |
| Examples.LongWayRound | chain/manager.go:447-489 | a node that receives three headers, two blocks on its tip and then the blocks of the headers, and whose reorganisation makes five steps where three would do |
| Manager.Manager.AddTipBlock | chain/manager.go:326-382 | for each answer, when it is given: added just for the valid children of the tip that are no more than two hours ahead, in the future or invalid for its other children, known or unknown for all other blocks; a heaviest tip stays heaviest exactly if total work and difficulty come to less than 2^256 |
| Examples.WorkFallsBack | sunyata.go:266-277 | with a difficulty of 2^255, two valid blocks with the IDs 1 and 2 take the total work to 2^255 and then to 0 |
| Manager.Manager.CheckKnown | chain/manager.go:331-347 | a block that does not attach is known just when it is stored, or among a chain's headers and no higher than its valid tip; with the scratch chains in order, just when it is stored |
| Manager.Manager.Record | chain/manager.go:298-299 | a new checkpoint keeps every stored ledger, every scratch chain and the best list |
| Manager.Manager.StoreBlock | chain/manager.go:294-299 | any block is stored just when it is a valid child of the chain's valid tip and headers are left; every stored ledger stays, chains in order stay so if the block's header is there, and the chain is still that of its headers exactly if it was and the block is the next one's |
| Manager.Manager.FollowHeaviest | chain/manager.go:300-315 | the tip stays if the newly stored block has no more work; otherwise it moves there exactly if the block is its child or the chain is that of its headers, and if not, whether that is an error or a panic is said of the state before |
| Manager.Manager.AddBlock | chain/manager.go:294-316 | one round, for any block, from the state before it: declined just when it is not valid there or no headers are left; stuck just when it overtakes the tip, is not its child, and is not the next of the chain's headers or the chain has left them; and a heaviest tip stays heaviest exactly unless it is stuck |
| Manager.Manager.AddRest | chain/manager.go:294-316 | the rounds for a list of blocks end where the run says, and if all are made, with the tree, the tip and the scratch chain that it says |
| Manager.Manager.AddTo | chain/manager.go:289-322 | as AddBlocks, for the chain that was found |
| Rounds.Run.EndsThere | chain/manager.go:294-316 | however the rounds are found to end, this is the only way: they end once, and the state before them decides how |
| Rounds.Run.FirstOvertake | chain/manager.go:300-315 | if every block adds work, some round breaks off exactly if the first one that gives the chain more work than the tip had neither starts at the tip nor ends on the headers |
| Rounds.Run.RisesExactly | consensus/update.go:16-40 | every block adds work exactly if no difficulty is zero and no total work wraps around |
| Examples.ReorgPanics | chain/manager.go:412-424 | a node that accepts three headers and then panics on three valid blocks: the second header is its tip's, with another parent |
| Examples.ReorgFails | chain/manager.go:412-424 | a node that accepts three headers and then fails on three valid blocks: the second header is that of a block that it does not have |
| Manager.Manager.ChainFor | chain/manager.go:277-287 | the first chain that is not fully validated, holds the index and has every block before it |
| Manager.Manager.AddBlocks | chain/manager.go:268-323 | for any blocks, each failure happens exactly if the state before the call says so: a panic for too few blocks, the first bad block, and a reorganisation that breaks off, with an error or a panic; a heaviest tip stays heaviest exactly unless one breaks off; after a success the tree, the tip and the chain, the first that wants the first block, are as after all rounds; the best list, the stored ledgers and the subscribers stay right; for consecutive blocks of a chain in order all are added or it stops at one that is invalid where it stands, and a chain is forgotten once it is fully validated |
| Manager.Manager.DiscardChain | chain/manager.go:491-498 | removes exactly one chain |
| Manager.Manager.AttachPoint | chain/manager.go:200-212 | the first chain whose tip is the parent of the header above it, going by heights |
| Manager.Manager.SkipKnown | chain/manager.go:223-237 | all headers that are dropped are stored, and the first one that is kept is not |
| Manager.Manager.FindKnown | chain/manager.go:191-198 | finds a chain just when one has the header already, and answers with the first that has it just when that promises more work than the tip |
| Manager.Manager.ChooseChain | chain/manager.go:200-248 | the first chain that the headers attach to, with the headers above its tip; or, if none, a new one on the stored parent of the first header that is not stored; or none, exactly if there is no such parent or no such header |
| Manager.Manager.NewChain | chain/manager.go:238-247 | a new scratch chain on a stored block, with that block's state |
| Manager.Manager.AppendAll | chain/manager.go:250-265 | headers are appended up to the first one that is invalid or more than two hours ahead, and that one decides which of the two is the answer; all of them are exactly if there is none such |
| Manager.Manager.AddNewHeaders | chain/manager.go:200-266 | headers whose last one is new: the first chain that they attach to, or else a new one, gets those that are accepted, and the answer is what that chain promises or what the first refused header is refused for; orphans, exactly, change nothing |
| Manager.Manager.AddHeaders | chain/manager.go:173-266 | the same for all headers: where the last one is known, nothing changes, and the answer is the first chain that has it, if that promises more work than the tip; a chain it returns holds the last header and promises more work; no other chain changes |
| Manager.Manager.AttachesAtChild | chain/manager.go:200-212 | headers of consecutive heights attach to a chain just when one of them is a child of its tip, and are then appended from that one on |
| Manager.Manager.OrphansByParent | chain/manager.go:220-241 | headers that are each other's children are orphans just when the first one's parent is not stored |
| Examples.HeadersInParts | chain/manager.go:173-266 | a node that gets two headers one by one, and the chain both times, and then refuses one that is too far ahead and one that is too early |
| Manager.Manager.AddSubscriber | chain/manager.go:548-593 | brings a subscriber from any stored index to the tip over legal steps, and fails, without touching it, just for an index that is not stored; everything stays right exactly unless it was subscribed already |
| Manager.Manager.UpdateElementProof | chain/manager.go:595-636 | moves a proof between any two stored blocks, through any reorganisation; succeeds just when the element exists at their last common block, and then the proof is right at b |
| Manager.Manager.BestIsLinked | chain/manager.go:55-58 | the best list is gap-free and parent-linked from the base to the tip |
| Manager.Manager.LedgerIsReplay | consensus/state.go:152-155 | every stored state is what replaying the blocks up to it makes of the base, and those blocks form a valid chain |
| Manager.Manager.SupplyAt | consensus/state.go:72-77 | no stored ledger of a node that started from genesis exceeds the supply |
| Manager.Manager.BaseHeight | chain/manager.go:112-118 | binary search finds the lowest height on the best list |
| Manager.Manager.History | chain/manager.go:105-142 | entries of the best chain from the tip to the base, at the documented offsets |
| Manager.HistoryDescends | chain/manager.go:120-141 | the history runs strictly downwards |
| Manager.HistoryLength | chain/manager.go:120-141 | past twelve entries, two to the length less ten stays below the span of the chain |
| Manager.OffsetsDouble | chain/manager.go:120-126 | the first ten entries follow each other, and from the eleventh on each gap is twice the one before |
| Manager.Manager.HeadersForHistory | chain/manager.go:144-171 | the headers that follow the first known index of a peer's history, as many as asked for or as there are |
| Manager.AttachesAtFirst | chain/manager.go:154-162 | that index is the first entry of the history on the best chain |
| Manager.NewNode | cmd/main.go:39-40 | a node that starts from a genesis block has the manager invariant and the heaviest tip |
| Words.LeadingZeros64 | currency.go:141 | the shift that brings a word's highest bit to the top |
| Words.OrIsSum | currency.go:142 | a bitwise or of words without common bits is their sum |
| Currency.Cmp | currency.go:53-61 | comparing the two words compares the values |
| Currency.AddWithOverflow | currency.go:79-83 | the carry chain over two words gives the wrapped 128-bit sum, and whether it wrapped |
| Currency.Add | currency.go:69-75 | the sum, or a panic exactly when it does not fit |
| Currency.SubWithUnderflow | currency.go:96-100 | the wrapped difference, and whether it wrapped |
| Currency.Sub | currency.go:86-92 | the difference, or a panic exactly when it is negative |
| Currency.Mul64 | currency.go:102-118 | the product, or a panic exactly when it does not fit |
| Currency.QuoRem64 | currency.go:164-173 | exact quotient and remainder for every divisor but zero; neither division panics |
| Currency.Normalised | currency.go:141-142 | the normalising shift loses nothing, also when it is zero |
| Currency.Trial | currency.go:144-145 | the trial quotient is the true one or one more, so after it is lowered it is the true one or one less |
| Currency.QuoRem | currency.go:132-162 | exact quotient and remainder for all 128-bit inputs; no inner operation panics and one correction is enough |
| Currency.DecimalMeaning | currency.go:183-201 | a decimal representation reads back as its number, holds digits only, and begins with a zero only for zero |
| Currency.WriteDigits | currency.go:192-195 | the inner loop writes the digits of one chunk in front of a position, over zeros |
| Currency.ExactString | currency.go:183-201 | the text is the decimal representation, for every value |
| Work.CompareIsNumeric | sunyata.go:318-321 | comparing big-endian bytes compares the numbers |
| Work.Add | sunyata.go:266-277 | the sum modulo 2^256 |
| Work.Sub | sunyata.go:279-290 | the difference modulo 2^256 |
| Work.Mul64 | sunyata.go:292-304 | the product modulo 2^256 |
| Work.Div64 | sunyata.go:306-316 | the quotient |
| Work.WorkRequiredForHash | sunyata.go:323-353 | the number of hashes expected for an ID, with its special case |
| Work.WorkTimesID | sunyata.go:326-353 | the work required for an ID, times the ID, is 2^256 as nearly as whole numbers allow |
| Work.HashRequiringWork | sunyata.go:355-376 | the ID expected of a number of hashes, with its special case |
| Work.TargetIsWork | sunyata.go:44-47 | miner and validator agree: an ID meets the target for a difficulty just when it required at least that much work |
| Work.TargetIsDemanded | consensus/validation.go:33-40 | for any encoding of IDs, a header that attaches is refused for its work exactly if its ID misses the target for the difficulty, which is what a miner looks for |
| Work.TargetIsGreatest | sunyata.go:355-357 | the target is the greatest ID that requires at least that much work |
| Work.TargetIsLowest | sunyata.go:355-357 | no lower ID requires as much work as the target t, as documented, exactly when t = 1 or (work of t + 1) · (t - 1) is at most 2^256 |
| Work.LowerTarget | sunyata.go:355-357 | an ID for which that fails: 2^255 + 1 requires one hash, as the much greater target for one hash does |
| Work.WorkFalls | sunyata.go:323-325 | greater IDs never required more work |
| Codec.Uint64Back | encoding.go:60-65 | eight bytes, the lowest first, read back as the number, with any stream behind them |
| Codec.Uint64Bytes | encoding.go:60-65 | byte i of a number is its digit of 256^i |
| Codec.PrefixBack | encoding.go:184-194 | a length reads back if the limit leaves room for it |
| Codec.TimeBack | encoding.go:70-71 | a time reads back cut to whole seconds, and unchanged just when it is whole |
| Codec.CurrencyBack | encoding.go:286-289 | currency reads back |
| Codec.OutputBack | encoding.go:314-317 | an output reads back |
| Codec.ElementIDBack | encoding.go:308-311 | an element ID reads back |
| Codec.StateElementBack | merkle/multiproof.go:182-195 | an element reads back with a proof of the same length and no data |
| Codec.OutputElementBack | merkle/multiproof.go:199-209 | an output element reads back, since the fields behind the length leave the limit room for the longest proof |
| Codec.InputBack | merkle/multiproof.go:213-223 | an input reads back without its proof data |
| Codec.TransactionBack | merkle/multiproof.go:227-257 | a transaction reads back without its proof data |
| Codec.OneVersion | merkle/multiproof.go:242-248 | no transaction of another version is read |
| BlockCodec.OneBlockVersion | merkle/multiproof.go:155-161 | no block of another version is read |
| Codec.HeaderBack | encoding.go:298-305 | a header reads back cut to whole seconds |
| Codec.SameID | sunyata.go:225-233 | cutting a header to whole seconds keeps its ID |
| Codec.HashesBack | merkle/multiproof.go:149-151 | a list of hashes without a length reads back, given how many there are |
| Streams.Encoder.Flush | encoding.go:22-30 | what was written reaches the stream, unless the stream has no room; errors stick |
| Streams.Encoder.Write | encoding.go:32-44 | however the bytes fall across the flush buffer, they are written in order; it fails only for want of room |
| Streams.Encoder.CopyIn | encoding.go:39-41 | the next bytes go into the buffer until they are all in or it is full |
| Streams.Decoder.SetErr | encoding.go:129-137 | the decoder has failed from here on |
| Streams.Decoder.Read | encoding.go:142-156 | however the read falls across the buffer, it yields the next bytes, or fails just when the stream or its limit is short |
| Streams.Decoder.ReadUint64 | encoding.go:179-182 | the next eight bytes as a number |
| Streams.Decoder.ReadPrefix | encoding.go:184-194 | the next length, refused just when it exceeds the limit |
| BlockCodec.EncodeTransaction | merkle/multiproof.go:227-240 | a transaction is written as its encoding: version, inputs behind their number, outputs behind theirs, fee, each field by its offset and each number by its bytes |
| BlockCodec.EncodeHeader | encoding.go:298-305 | a header is written as its encoding: 120 bytes, each field by its offset and each number by its bytes |
| BlockCodec.EncodeBlock | merkle/multiproof.go:139-152 | a block is written as its encoding, with the multiproof behind it: version, header, every transaction and every hash by its offset |
| BlockCodec.BlockHere | merkle/multiproof.go:139-152 | the offsets of a block's parts |
| Layout.HeaderHere | encoding.go:298-305 | the offsets of a header's fields |
| Layout.TransactionHere | merkle/multiproof.go:227-240 | the offsets of a transaction's parts |
| Layout.InputHere | merkle/multiproof.go:182-217 | the offsets of an input's fields; of its proof only the length is written |
| BlockCodec.DecodeTransaction | merkle/multiproof.go:242-257 | decoding makes of any stream what the format says, and fails just when it says so |
| BlockCodec.DecodeHeader | encoding.go:397-404 | decoding a header makes of any stream what the format says |
| BlockCodec.DecodeBody | merkle/multiproof.go:155-164 | decoding a block up to its multiproof makes of any stream what the format says |
| BlockCodec.WriteBack | merkle/multiproof.go:100-133 | expanded proofs go back to the inputs they came from |
| BlockCodec.ParsedIsReadable | merkle/multiproof.go:188-195 | whatever is decoded, positions are words and proofs shorter than 64, as the three traversals need |
| BlockCodec.DecodeBlock | merkle/multiproof.go:154-176 | on any stream, decoding fails just when the stream holds no whole block, reads exactly the hashes that the block's proofs take, and leaves what follows; with inputs and hashes from a forest every merged proof is restored |
| BlockCodec.DecodeEncoded | merkle/multiproof.go:154-176 | the encoding of any block, with any bytes behind it, gives back the block but for what its proofs hold, and leaves exactly those bytes; proofs from a forest come back too |
| BlockCodec.RoundedIsSame | merkle/multiproof.go:182-186 | it is the same block exactly when its timestamp is whole and its ephemeral proofs hold nothing |
| BlockCodec.SendBlock | merkle/multiproof.go:139-176 | the whole way through the 1024-byte and the 64-byte buffer |
| Miner.ParentsAreShallower | miner/miner.go:55-62 | a transaction's ID contains its parents', so dependencies cannot be circular |
| Miner.AddDeps | miner/miner.go:53-65 | the depth-first search terminates and lists every missing dependency once, parents first |
| Miner.CalcDeps | miner/miner.go:48-68 | exactly the transactions of the pool that a transaction needs, directly or not, parents first |
| Miner.TxnsForBlock | miner/miner.go:42-89 | for every order of visiting the pool: pool transactions only, none twice, parents first, within the weight limit; no schedule that goes on from there fits, and if the whole pool fits, it is all there |
| Miner.LeftOutIsTooHeavy | miner/miner.go:72-86 | no transaction that the block leaves out fits into it together with the ones it needs |
| Miner.ScheduleIsAvailable | consensus/validation.go:149-191 | such a block passes the validator's check of ephemeral outputs |

## Left out

- `p2p/`: sockets, goroutines and the download loop; the manager's calls are modelled as atomic steps.
- `FlatStore` (internal/chainutil/store.go:89-462): file offsets, crash recovery and pruning; the store here is `EphemeralStore`.
- `wallet/`, `internal/walletutil/`, `cmd/`: user interface, key derivation, persistence and coin picking.
- `txpool/`: each of its paths is validation again; the pool appears only as the miner's input.
- SHA-512/256 and Ed25519: terms, so collisions and forgeries do not exist; `work`, the work required for an ID, is a parameter of validation, and `Work.HashWork` is the function of the ID's bytes that it is for an encoding of IDs.
- Text, JSON and hex forms, `Currency.String`, `ParseCurrency`; `State`'s and the accumulators' own encoders and decoders, uncompressed transactions, `ReadBool`, `ReadString`.
- Mutexes, object pools, flush timing and `mayCommit`; the current time is a parameter.
- Errors returned by subscribers, and I/O errors of a store: neither occurs with the subscribers and the store modelled here.
- Aliasing and capacity of Go slices: proofs are values, so an append to a proof whose memory another slice shares cannot be seen.
- `GrindNonce` and `MineBlock`'s loop: they wait for luck.
- Manager.Manager.AddTipBlock: asks for heights below 2^40, below which no accumulator can overflow, and that no other form of the block with another timestamp is stored; with one, its children would no longer fit it (`ChainTree.UnsafeForm`).
- Scratch.ScratchChain.ApplyBlock: asks for the same.
- Manager.Manager.AddBlocks: asks for the same of every block; blocks from a decoder have whole seconds and so at most one timestamp each.
- Multiproof.MultiproofSize: asks for proofs shorter than 64, on longer ones the code panics; decoding refuses them (`BlockCodec.ParsedIsReadable`).
- Work.WorkRequiredForHash: not for the zero ID, on which the code panics; so too Work.HashRequiringWork and zero work.
