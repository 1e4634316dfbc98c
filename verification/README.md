# Verified model of the IPC core data structures

A Dafny model of the parts of IPC whose correctness does not show from reading one function: the accumulator
actor (a Merkle Mountain Range), the array Merkle tree with its multi-proofs, the transactional in-memory store,
the subnet provider cache, the state history of the ABCI application, cross-net routing, signed 256-bit
arithmetic and the missing-block walk. `dafny verify dfyconfig.toml` checks everything.

## How it is organised

- `Bits`, `MountainRange`, `Eigentree`, `Accumulator`: the accumulator. The central idea is to build the range of
  peaks level by level: one level pairs up neighbouring trees and leaves the odd one out as a peak. That
  recursion follows the binary expansion of the leaf count from its lowest bit, just as the merge loop and the bit
  tricks of the lookup do, so the shape of the forest, the push, and the address of a leaf are all one induction.
- `MerkleTree`, `MultiProofs`, `MultiProofSoundness`, `StandardTree`: the array tree, proofs for one and for several leaves, and the
  "standard-v1" tree over values. Prover and verifier are separate queue machines; the invariant that ties them
  together is that the prover's queue is strictly descending and ends above the parent of its first node. Soundness
  runs the verifier backwards, splitting nodes of the tree, and counts the leaves below them.
- `KvStore`: every step of a transaction, including taking the write token, taking the snapshot, publishing the data
  and releasing the token, is an event of its own; a run is any interleaving of events. The reference is computed
  from the event list alone.
- `ProviderCache`: events again, with the subnets that pruning dropped as part of the event, because the code may
  break ties in any order. The reference is the list of records each peer has sent since it became routable.
- `StateHistory`: the reference is everything ever filed, without pruning.
- `Int256`, `Routing`, `MissingBlocks`: the smaller cores.
- `Outcomes`, `Sorting`: `Option`, `Result`, `Attempt` for operations that may also panic, and the stable sort that the
  Rust standard library provides.

Where the source updates state in place, the model is a class whose methods are proved against the functions
that the theorems are about; a ghost field records the history (or the log of pushed objects).

## Assumptions

- Hash functions are parameters. `Accumulator.CollisionFree` states that no two blocks share an identifier;
  stored objects and pairs of identifiers are different blocks. `MerkleTree.PairsInjective` and
  `MerkleTree.LeavesApart` are needed for the soundness of proofs only, not for completeness;
  `MerkleTree.AssumptionsConsistent` shows that they can be met together.
- Reading a type, reading an item as a type, and the digest of the tokens of a value are parameters that do not panic.
- Hashes and identifiers are natural numbers: a 32-byte digest read as a big-endian number sorts like its bytes.
- The array of peaks (an AMT) is a sequence, hash maps are maps, and iterating over a hash map picks keys in any order.
- `usize` and heights are unbounded; the places where a width matters are explicit (`u64` in the accumulator, the
  32-bit sibling index, 256-bit words, the last block height).

## Where the code and its descriptions differ

- `state_params_at_height` is documented to return the height of the block that committed the state. It does so exactly
  if the queried height is not in the history, in which case it silently answers with the latest state
  (`StateHistory.CommittingBlockReturned`); for a height in the history it returns the queried height, which is one
  more (`StateHistory.WrongBlockReturned`).
- The empty state saved before genesis "must not be queried", and `can_query_state` is there to prevent it. But a query
  for height 1 gets past that guard whenever the empty state is still filed there: before genesis; for ever after a
  genesis above height 2; until pruning reaches it after a genesis at height 2; and, again until pruning reaches it, on
  a node bootstrapped from a snapshot, whatever the initial height of the chain. `StateHistory.EmptyStateServed` gives
  the exact condition for every run, `EmptyAfterGenesis` and `EmptyAfterStateSync` spell it out.
- `process_multi_proof` checks the format of its input and still panics on some well-formed inputs;
  `MultiProofs.PanicsExactly` says which, and `MultiProofs.WellFormedPanics` gives one. What
  `get_multi_proof` returns is never among them.
- `get_proof`, `get_multi_proof`, `of` and `load` of the standard tree return errors, but can panic on a value with
  fewer items than the encoding; `StandardTree.LeafHashExactly` and `StandardTree.HashingPanicsExactly` say when.
- `add_provider` is documented to return the newly removed associations of the peer, but a subnet that pruning drops is
  not among them, even if the peer was in it before (`ProviderCache.LossUnreported`).
  `ProviderCache.ReportCompleteExactly` says for which records the report is complete.
- A provider record with timestamp zero marks its peer as having a timestamp, but is never taken in. The model
  therefore needs no assumption that timestamps are positive.

## Model

| member | source | states |
|---|---|---|
| Bits.TrailingZerosOfNot | fendermint/actors/accumulator/src/shared.rs:87-91 | the trailing zeros of the complemented leaf count are the trailing ones of the leaf count, for every 64-bit word |
| MountainRange.PeakHeightsAreBits | fendermint/actors/accumulator/src/shared.rs:87-90 | the peak heights are exactly the one-bits of the leaf count, each once, highest first |
| MountainRange.PeakHeightsTotal | fendermint/actors/accumulator/src/shared.rs:87-90 | the peaks together cover all leaves |
| MountainRange.ForestShape | fendermint/actors/accumulator/src/shared.rs:83-103 | over a row of perfect trees of one height, one perfect peak for each one-bit, at that bit's height |
| MountainRange.ForestLeaves | fendermint/actors/accumulator/src/shared.rs:83-103 | grouping into peaks neither loses, repeats nor reorders a leaf |
| MountainRange.PeaksShape | fendermint/actors/accumulator/src/shared.rs:83-103 | for any log there are popcount(count) peaks, and peak k is a perfect tree over its own consecutive slice of the log |
| MountainRange.ForestAppendOdd | fendermint/actors/accumulator/src/shared.rs:92-101 | appending to an odd row merges with its last peak and carries on one level up |
| MountainRange.BaggedPeaksFrontier | fendermint/actors/accumulator/src/shared.rs:107-123 | the bagged tree has exactly the pushed objects as its leaves, in order |
| MountainRange.BaggedSpine | fendermint/actors/accumulator/src/shared.rs:118-122 | the peaks are combined from the last one backwards: peak k hangs to the left after k steps to the right, and the last peak is at the end |
| Eigentree.PathForEigenRoot | fendermint/actors/accumulator/src/shared.rs:129-154 | an address exists exactly for indices below the leaf count; the XOR, leading-zeros and popcount tricks then name a peak whose leaf range contains the index, and the path below its leading one is the offset in that range |
| Eigentree.EigenWithinWord | fendermint/actors/accumulator/src/shared.rs:136-153 | none of the 64-bit shifts, sums and differences in the address computation leaves the word |
| Eigentree.EigenAddress | fendermint/actors/accumulator/src/shared.rs:134-150 | for numbers of any width the highest differing bit of index and count is the height of the covering peak |
| Eigentree.AddressUnique | fendermint/actors/accumulator/src/shared.rs:142-149 | no other peak's range contains the index |
| Eigentree.AddressInjective | fendermint/actors/accumulator/src/shared.rs:129-154 | different leaves have different (path, peak) addresses |
| Accumulator.HashAndPutPair | fendermint/actors/accumulator/src/shared.rs:63-74 | stores the pair under the identifier that hashing alone gives, keeps every earlier block, and changes nothing on error |
| Accumulator.MergeStep | fendermint/actors/accumulator/src/shared.rs:92-101 | a merge always finds two peaks to pop, and leaves the peaks of the row one level up |
| Accumulator.MergeLastTwo | fendermint/actors/accumulator/src/shared.rs:93-100 | one pass of the merge loop succeeds and stores the merged node |
| Accumulator.PushLeaf | fendermint/actors/accumulator/src/shared.rs:77-104 | from the stored peaks of a log to those of the log with one more object, with every tree node stored |
| Accumulator.BagPeaks | fendermint/actors/accumulator/src/shared.rs:107-123 | the backward loop computes the right fold of any peaks, also of none or one |
| Accumulator.BagIsDigest | fendermint/actors/accumulator/src/shared.rs:107-123 | bagging peak identifiers gives the identifier of the bagged tree |
| Accumulator.RootCommits | fendermint/actors/accumulator/src/shared.rs:107-123 | without collisions, equal roots mean equal logs, even if the leaf counts are not known |
| Accumulator.WalkDown | fendermint/actors/accumulator/src/shared.rs:172-214 | the loop over the bits of a path reaches what the recursive walk reaches, in any store, including every error case |
| Accumulator.GetAt | fendermint/actors/accumulator/src/shared.rs:156-215 | fetching computes the lookup for any store, peaks and counts |
| Accumulator.WalkExactly | fendermint/actors/accumulator/src/shared.rs:172-214 | in any store a walk finds an object if and only if stored pairs lead there, each by the side the next bit says |
| Accumulator.LookupExactly | fendermint/actors/accumulator/src/shared.rs:156-215 | for any store, peaks and counts, an object is found if and only if the index is below the count, the peak exists and the path leads there |
| Accumulator.WalkReaches | fendermint/actors/accumulator/src/shared.rs:190-208 | walking a stored perfect tree by the bits of a path reaches the leaf at that offset |
| Accumulator.LookupRefinesSequence | fendermint/actors/accumulator/src/shared.rs:156-215 | the lookup agrees with the plain sequence of pushed objects: the i-th object for i below the count, an error otherwise |
| Accumulator.LookupStable | fendermint/actors/accumulator/src/shared.rs:306-317 | later pushes never change an earlier answer |
| Accumulator.State.constructor | fendermint/actors/accumulator/src/shared.rs:245-265 | a new accumulator is valid and its log is empty |
| Accumulator.State.PeakCount | fendermint/actors/accumulator/src/shared.rs:267-269 | counting the one-bits of the leaf count counts the peaks |
| Accumulator.State.Push | fendermint/actors/accumulator/src/shared.rs:275-289 | appends to the log, keeps the invariant, only adds blocks, and returns the new root and the old count |
| Accumulator.State.GetRoot | fendermint/actors/accumulator/src/shared.rs:291-294 | the root of the current log, hence the one the last push returned, and the default identifier for an empty log |
| Accumulator.State.GetLeafAt | fendermint/actors/accumulator/src/shared.rs:306-317 | the i-th pushed object, or nothing from the count on |
| MerkleTree.HashPairSorts | ext/merkle-tree-rs/src/core.rs:21-26 | the smaller digest is hashed first, in whichever order the two are given |
| MerkleTree.SiblingsShareParent | ext/merkle-tree-rs/src/core.rs:36-52 | siblings are the two children of one parent; the root has neither; an error beyond 32 bits, a panic at the very end |
| MerkleTree.MakeMerkleTree | ext/merkle-tree-rs/src/core.rs:88-108 | fills the array with the recursively defined tree: leaves last and back to front, and every node before them hashes its two children, the smaller first; fails exactly for no leaves |
| MerkleTree.MerkleTreeIsBuilt | ext/merkle-tree-rs/src/core.rs:202-217 | an array whose inner nodes hash their children is the tree built from its own leaves, and conversely |
| MerkleTree.IsValidMerkleTree | ext/merkle-tree-rs/src/core.rs:202-217 | true exactly for odd-length arrays equal to the tree built from the reverse of their last half |
| MerkleTree.GetProof | ext/merkle-tree-rs/src/core.rs:110-122 | for any array and index: the siblings up to the root, or an error for what is no leaf or exceeds 32 bits, or a panic exactly at the largest 32-bit index and at a last leaf without sibling |
| MerkleTree.ProofComplete | ext/merkle-tree-rs/src/core.rs:110-126 | every node's proof folds to the root |
| MerkleTree.ProofSound | ext/merkle-tree-rs/src/core.rs:124-126 | a leaf hash that any proof folds to the root is a leaf of the tree |
| MultiProofs.SiblingOnlySecond | ext/merkle-tree-rs/src/core.rs:152-155 | in an ordered queue the sibling of the first node can only be the second |
| MultiProofs.AdvanceOrdered | ext/merkle-tree-rs/src/core.rs:147-161 | a prover step keeps the queue strictly descending and moves its front towards the root |
| MultiProofs.LockStep | ext/merkle-tree-rs/src/core.rs:186-194 | the verifier, fed the hashes of the prover's queue, follows it step by step to the root |
| MultiProofs.ProofFormat | ext/merkle-tree-rs/src/core.rs:175-181 | as many proof nodes as false flags, and leaves + proof = flags + 1 |
| MultiProofs.MultiProofComplete | ext/merkle-tree-rs/src/core.rs:128-200 | every multi-proof of a Merkle tree verifies to its root, also for no leaves |
| MultiProofs.RequestProves | ext/merkle-tree-rs/src/core.rs:128-200 | so does every duplicate-free request, in any order |
| MultiProofs.GetMultiProof | ext/merkle-tree-rs/src/core.rs:128-172 | for any array and request: an error exactly for duplicates, non-leaves and indices beyond 32 bits, a panic exactly if the request overreaches, and otherwise the multi-proof; the caller's indices end up sorted once they are known to be leaves |
| MultiProofs.SmallRequests | ext/merkle-tree-rs/src/core.rs:128-165 | a request for one leaf is refused or panics exactly as a single proof would; one for no leaf panics only on an empty array |
| MultiProofs.RunProver | ext/merkle-tree-rs/src/core.rs:143-161 | the queue loop emits exactly the specified proof nodes and flags; the first node alone decides whether it fails or panics |
| MultiProofs.ProcessMultiProof | ext/merkle-tree-rs/src/core.rs:174-200 | the verifier loop computes the verdict for any input: a root, a rejection, or a panic |
| MultiProofs.RejectsExactly | ext/merkle-tree-rs/src/core.rs:175-181 | rejected, and not panicked on, is exactly what has fewer proof nodes than false flags or the wrong total |
| MultiProofs.PanicsExactly | ext/merkle-tree-rs/src/core.rs:174-200 | a well-formed input panics if and only if it has flags and more proof nodes than false flags |
| MultiProofs.WellFormedPanics | ext/merkle-tree-rs/src/core.rs:174-200 | such an input, for any hashes |
| MultiProofSoundness.MultiProofSound | ext/merkle-tree-rs/src/core.rs:174-200 | if any multi-proof, however made, verifies to the root, all the leaf hashes it claims are leaves of the tree, and none is claimed more often than the tree has it |
| MultiProofSoundness.RunPlaced | ext/merkle-tree-rs/src/core.rs:183-199 | a run of the verifier that ends in the root has all hashes of its stack at nodes of the tree, with no leaf below two of them |
| StandardTree.LeafHashExactly | ext/merkle-tree-rs/src/standard.rs:63-76 | a value hashes if and only if every entry of the encoding has a readable item; hashing panics if and only if the value is too short, its items are readable, and so is the type of the first entry without an item |
| StandardTree.LeafHashIsDigest | ext/merkle-tree-rs/src/standard.rs:63-76 | the hash is the digest of the items, read as the types of the encoding, in its order |
| StandardTree.SurplusIgnored | ext/merkle-tree-rs/src/standard.rs:63-76 | items beyond the encoding do not change the hash |
| StandardTree.New | ext/merkle-tree-rs/src/standard.rs:90-103 | succeeds exactly if all values hash, and panics exactly if the first that does not panics; the table maps each hash to the last value with it |
| StandardTree.AssignSlots | ext/merkle-tree-rs/src/standard.rs:127-136 | the value that came i-th in the sorted order is told slot length - i - 1 |
| StandardTree.Of | ext/merkle-tree-rs/src/standard.rs:105-139 | for every non-empty hashable list, duplicates included: a Merkle tree over the sorted hashes, with values and leaf slots in one-to-one correspondence, each slot holding its value's hash, and slots descending as hashes ascend and, among equal hashes, as positions do; panics exactly if the first value that does not hash panics |
| StandardTree.Load | ext/merkle-tree-rs/src/standard.rs:141-166 | loading what a tree dumps gives the tree back; other formats and unhashable values fail, or panic exactly if the first unhashable one does |
| StandardTree.ResolveNames | ext/merkle-tree-rs/src/standard.rs:188-205 | a number stands for the value with that number, a value given literally for the last one with its hash, and nothing else resolves |
| StandardTree.ValidateExactly | ext/merkle-tree-rs/src/standard.rs:276-285 | in any tree, consistent or not, a stored value passes if and only if its slot holds its hash, and panics if and only if hashing it does |
| StandardTree.HashingPanicsExactly | ext/merkle-tree-rs/src/standard.rs:188-207 | on a tree built or loaded, hashing for a request panics if and only if a value given literally is too short, with readable items and a readable next type |
| StandardTree.EmptyValuePanics | ext/merkle-tree-rs/src/standard.rs:199-207 | the empty value is such a request on every tree whose first type is readable |
| StandardTree.GetProof | ext/merkle-tree-rs/src/standard.rs:199-224 | on any tree built or loaded: the proof is the siblings of the slot of exactly the value requested, and folds from its hash, or from that of the value given, to the root; there is one if and only if the slot holds the hash, is a leaf within range and its siblings fold to the root; it panics if and only if hashing does or the slot is the largest 32-bit index or has no sibling; on a well-formed tree every request that names a value succeeds |
| StandardTree.GetMultiProof | ext/merkle-tree-rs/src/standard.rs:226-274 | on any tree built or loaded: the returned values have, with repetitions, exactly the hashes of the values requested, are each the last stored with their hash, and verify to the root; there is a proof if and only if the requested values are jointly provable; it panics if and only if the first request that cannot be resolved makes hashing panic, or the slots overreach; on a well-formed tree it succeeds exactly for distinct requested values |
| StandardTree.ProverNeverPanics | ext/merkle-tree-rs/src/standard.rs:246-252 | the self-check cannot panic, whatever hashes a loaded tree contains |
| KvStore.GetIsLastWrite | fendermint/storage/src/im.rs:143-204 | a get returns what the last put or delete on that key left |
| KvStore.TokenHeld | fendermint/storage/src/im.rs:95-127 | with locking, every transaction that is not a reader holds the write token |
| KvStore.TokenOwned | fendermint/storage/src/im.rs:120-133 | with locking, a token that is taken is held by an open transaction that is not a reader; so it is free whenever no writer is open |
| KvStore.TokenComesBack | fendermint/storage/src/im.rs:120-133 | from any point of any run the token can be free again within two steps, with nothing committed on the way |
| KvStore.OpenExactly | fendermint/storage/src/im.rs:66-141 | a transaction is open exactly from the step that opens it to the one that ends it, whatever others do |
| KvStore.LockKeepsUpToDate | fendermint/storage/src/im.rs:95-127 | with locking, nobody else commits between a write transaction's snapshot and its commit |
| KvStore.Serialisable | fendermint/storage/src/im.rs:66-133 | with locking after any interleaving, and without it if no writer missed a commit, the committed data are those of the committed transactions run one by one in commit order |
| KvStore.SnapshotRead | fendermint/storage/src/im.rs:72-109 | in every run, locked or not, an open transaction reads its own last write, or else what the store held when it was opened |
| KvStore.Isolated | fendermint/storage/src/im.rs:72-109 | with locking, or if no writer missed a commit, that is exactly the commits before its start, then its own writes; under locking a writer has missed no commit |
| KvStore.CommitKeepsOrderExactly | fendermint/storage/src/im.rs:122-127 | in every run without locking, a commit leaves a key with its value in the serial order if and only if it wrote the key itself, or the store held that value when the transaction was opened |
| KvStore.FirstMissKeepsOrderExactly | fendermint/storage/src/im.rs:122-127 | for the first commit that missed others, that is if and only if it wrote the key itself or the missed commits left the key's value alone |
| KvStore.LaterMissKeepsLoss | fendermint/storage/src/im.rs:122-127 | for later ones this is not enough: in any run that has lost a key, such a commit leaves it lost |
| KvStore.UpdateLost | fendermint/storage/src/im.rs:33-36 | without locking, overlapping writers lose an update that either serial order keeps |
| KvStore.InMemoryBackend.Read | fendermint/storage/src/im.rs:74-81 | opens a fresh reader on the current data, and changes nothing else |
| KvStore.InMemoryBackend.Write | fendermint/storage/src/im.rs:95-108 | takes the token if writes are locked, then opens a fresh writer on the current data |
| KvStore.InMemoryBackend.Get | fendermint/storage/src/im.rs:147-157 | the transaction's own last write, or else the value at its opening; with locking the last write among the commits it has seen and its own operations |
| KvStore.InMemoryBackend.Put | fendermint/storage/src/im.rs:181-191 | takes the put step, on the transaction's own data only |
| KvStore.InMemoryBackend.Delete | fendermint/storage/src/im.rs:193-203 | takes the delete step, also for a namespace that does not exist |
| KvStore.InMemoryBackend.Commit | fendermint/storage/src/im.rs:122-127 | publishes the transaction's data, ends it, and leaves the token free if writes are locked |
| KvStore.InMemoryBackend.Rollback | fendermint/storage/src/im.rs:129-132 | ends the transaction, leaves the data alone, and leaves the token free if writes are locked |
| KvStore.InMemoryBackend.CloseRead | fendermint/storage/src/im.rs:135-141 | ends a reader, and changes nothing else |
| ProviderCache.PruneGuarantee | ipld/resolver/src/provider_cache.rs:146-175 | after pruning the cache is within its limit or holds only pinned subnets, and no pinned entry has changed |
| ProviderCache.PruneExact | ipld/resolver/src/provider_cache.rs:149-175 | no more is dropped than must be: what is left fills the limit exactly, or is exactly the pinned subnets if these are more |
| ProviderCache.CacheRefinesHistory | ipld/resolver/src/provider_cache.rs:261-290 | over any run and for every subnet, a peer is listed if and only if it is routable, the earliest of its newest records lists the subnet, and pruning has not dropped the subnet since |
| ProviderCache.UndroppedExact | ipld/resolver/src/provider_cache.rs:353-366 | while the limit does not hit a subnet, it lists exactly the peers whose best record lists it |
| ProviderCache.PinnedExact | ipld/resolver/src/provider_cache.rs:31-34 | for a subnet that stays pinned this is exact however often the limit is hit |
| ProviderCache.PinnedExactly | ipld/resolver/src/provider_cache.rs:54-62 | a subnet is pinned if and only if the last pin or unpin of it was a pin, or there was none and it was pinned at first |
| ProviderCache.PinnedNeverDropped | ipld/resolver/src/provider_cache.rs:54-57 | from any time at which it is pinned until it is unpinned, a subnet is never dropped |
| ProviderCache.PinnedSinceExact | ipld/resolver/src/provider_cache.rs:54-57 | from any pin on, until it is unpinned, a subnet lists exactly the peers whose best record lists it, unless that record was sent, and the subnet dropped, before the pin |
| ProviderCache.LimitKept | ipld/resolver/src/provider_cache.rs:138-175 | after any run the cache is within its limit, or holds only subnets that are pinned or have lost their pin since a record was last taken in |
| ProviderCache.LimitKeptByPins | ipld/resolver/src/provider_cache.rs:314-324 | while nothing is unpinned, only pinned subnets can exceed the limit; without pins nothing ever does |
| ProviderCache.UnpinLeavesExcess | ipld/resolver/src/provider_cache.rs:59-62 | unpinning does not prune: a run after which an unpinned subnet is over the limit |
| ProviderCache.SubnetProviderCache.constructor | ipld/resolver/src/provider_cache.rs:44-52 | starts empty with the static subnets pinned |
| ProviderCache.SubnetProviderCache.PinSubnet | ipld/resolver/src/provider_cache.rs:55-57 | the subnet is pinned, and nothing else changes |
| ProviderCache.SubnetProviderCache.UnpinSubnet | ipld/resolver/src/provider_cache.rs:60-62 | the subnet is no longer pinned, and nothing else changes |
| ProviderCache.SubnetProviderCache.SetRoutable | ipld/resolver/src/provider_cache.rs:67-69 | the peer is routable, and nothing else changes |
| ProviderCache.SubnetProviderCache.SetUnroutable | ipld/resolver/src/provider_cache.rs:74-80 | forgets the peer everywhere |
| ProviderCache.SubnetProviderCache.PruneProviders | ipld/resolver/src/provider_cache.rs:180-198 | makes exactly the peers with a timestamp before the cutoff unroutable and returns them |
| ProviderCache.SubnetProviderCache.PruneSubnets | ipld/resolver/src/provider_cache.rs:149-175 | drops as many unpinned subnets as are over the limit, or all, and none with more providers than one it keeps |
| ProviderCache.SubnetProviderCache.AddProvider | ipld/resolver/src/provider_cache.rs:103-144 | nothing for an unroutable peer; otherwise the added subnets are exactly those the peer is in now and was not before, and the removed ones are all lost, and all that is lost if pruning cannot reach a kept subnet; a newer record leaves the cache within its limit or only pinned subnets |
| ProviderCache.ReportCompleteExactly | ipld/resolver/src/provider_cache.rs:99-102 | all losses of a peer are reported, whatever pruning chooses, if and only if every unpinned subnet it keeps has at least as many less provided ones before it as must be dropped |
| ProviderCache.LossUnreported | ipld/resolver/src/provider_cache.rs:138-140 | a run in which a peer loses a subnet it keeps listing, without a report |
| ProviderCache.SubnetProviderCache.ProvidersOfSubnet | ipld/resolver/src/provider_cache.rs:201-206 | exactly the peers the history vouches for |
| StateHistory.HistoryExact | fendermint/app/src/app.rs:269-294 | after any start, with genesis or bootstrapped by a snapshot, and any rising run of commits and imports the history is everything ever filed, less exactly what pruning has passed |
| StateHistory.HistoryBounded | fendermint/app/src/app.rs:279-286 | never more than the configured number of states, snapshot jumps included, besides a left-over empty one |
| StateHistory.WindowExact | fendermint/app/src/app.rs:228-294 | from genesis at height 1 and n blocks, the stored heights are exactly max(1, n + 2 - N) to n + 1, each with what the block before it committed |
| StateHistory.QueryAnswered | fendermint/app/src/app.rs:364-381 | over any rising run a query gets what was last filed under its height if that is kept, and else the latest state |
| StateHistory.WindowAnswered | fendermint/app/src/app.rs:356-363 | a query at each height of the window gets what the block before it committed |
| StateHistory.CommittingBlockReturned | fendermint/app/src/app.rs:363-380 | the returned height is that of the committing block if and only if the queried height is not in the history |
| StateHistory.WrongBlockReturned | fendermint/app/src/app.rs:375-377 | at height 1 after genesis the state of block 0 comes with height 1 |
| StateHistory.EmptyStateServed | fendermint/app/src/app.rs:356-389 | over any rising run a query runs on the empty state if and only if it asks for height 1 while nothing replaced the empty state and pruning has not removed it; the guard does not help |
| StateHistory.OtherStatesServed | fendermint/app/src/app.rs:383-389 | the guard never refuses another state, and refuses the empty one exactly before anything was committed, unless asked for height 1 |
| StateHistory.EmptyAfterGenesis | fendermint/app/src/app.rs:501-535 | when that is after a genesis and any number of blocks |
| StateHistory.EmptyAfterStateSync | fendermint/app/src/app.rs:1024-1030 | when that is after bootstrapping from a snapshot and any number of blocks |
| StateHistory.FallingImport | fendermint/app/src/app.rs:279-286 | importing below the current height prunes nothing, and keeps the bound if and only if the height was filed already or there was room |
| StateHistory.FallingRunOverflows | fendermint/app/src/app.rs:1024-1030 | importing a snapshot below the current height can exceed the bound |
| StateHistory.RetainHeightSafe | fendermint/app/src/app.rs:840-845 | the retain height never passes a block whose state is kept |
| StateHistory.RetainHeightExact | fendermint/app/src/app.rs:840-845 | over any rising run: zero while nothing has been pruned, and after that a filed state is kept if and only if its block is above the retain height |
| StateHistory.WindowRetained | fendermint/app/src/app.rs:840-845 | from genesis at height 1 and n blocks, n not below N, it is n - N, and the next block is the lowest whose state is kept |
| StateHistory.Application.SetCommittedState | fendermint/app/src/app.rs:269-294 | files the state and deletes everything from the oldest height up to the prune height |
| StateHistory.Application.InitCommittedState | fendermint/app/src/app.rs:228-251 | files the empty state only if nothing was committed yet |
| StateHistory.Application.InitChain | fendermint/app/src/app.rs:501-535 | files genesis as the state of a block just below the initial height; on a blank store this founds the run |
| StateHistory.Application.Commit | fendermint/app/src/app.rs:812-845 | files the new state over the last one, keeping the oldest height, as one more event of the run, and returns the retain height; as long as heights rise, a filed state is kept if and only if its block is above it |
| StateHistory.Application.ImportSnapshot | fendermint/app/src/app.rs:1024-1030 | files the imported state under its own height, as one more event of the run |
| StateHistory.Application.StateParamsAtHeight | fendermint/app/src/app.rs:364-381 | as long as heights rise, the answer is the one that the full, unpruned record of the application's run gives; fails only if there is no state at all |
| Int256.NegativeIsSign | ipc/types/src/uints.rs:57-59 | the top limb test is the sign of the two's complement number |
| Int256.WordSizes | ipc/types/src/uints.rs:37-59 | the word constants are the powers of two they are named after |
| Int256.NegNegates | ipc/types/src/uints.rs:63-69 | negates, except that the least number is its own negation |
| Int256.CmpIsSignedOrder | ipc/types/src/uints.rs:72-79 | comparison is signed order |
| Int256.DivModTruncate | ipc/types/src/uints.rs:82-141 | zero for a zero divisor, MIN / -1 = MIN, and otherwise exactly the quotient and remainder truncated towards zero |
| Int256.TruncatesUnique | ipc/types/src/uints.rs:82-141 | that quotient and remainder are unique |
| Int256.DivModCongruent | ipc/types/src/uints.rs:82-141 | quotient times divisor plus remainder is congruent to the dividend modulo 2^256 for every nonzero divisor |
| Routing.CommonIsLongest | ipc/api/src/subnet_id.rs:149-163 | the common count is the longest common prefix |
| Routing.CommonParentExactly | ipc/api/src/subnet_id.rs:149-163 | there is a common parent exactly for subnets of one root; its ancestors are exactly the common ancestors, whichever subnet is asked |
| Routing.DownExactly | ipc/api/src/subnet_id.rs:167-179 | a step down exists exactly towards a deeper subnet of the same root, related or not: the first on its path that is not also on the other's |
| Routing.DownIsChild | ipc/api/src/subnet_id.rs:167-179 | stepping down from an ancestor gives its child on the path, and nothing at the destination |
| Routing.RouteStops | ipc/api/src/subnet_id.rs:134-179 | climbing by parent and stepping by down reaches the destination in as many hops as both paths have children beyond the common ones, through known stops |
| Routing.RouteIsPath | ipc/api/src/subnet_id.rs:134-179 | every hop is between a subnet and its parent |
| Routing.RouteShortest | ipc/api/src/subnet_id.rs:134-163 | no path through the subnet tree is shorter |
| Routing.ApplyTypeOnRoute | ipc/api/src/cross.rs:90-109 | bottom-up as far as the common parent inclusively and top-down after it, or top-down throughout if the source is the common parent |
| Routing.IpcTypeExactly | ipc/api/src/cross.rs:144-151 | bottom-up if and only if both subnets have one root and the source is not an ancestor of the destination |
| Routing.ApplyTypeExactly | ipc/api/src/cross.rs:99-109 | in any subnet, on the route or not, bottom-up if and only if the message is and the subnet shares with the destination the same ancestors as the source does |
| MissingBlocks.FindMissing | ipld/resolver/src/missing_blocks.rs:15-33 | the stack loop terminates on every acyclic store and returns, in its own order, exactly the identifiers reachable through stored blocks but absent |
| MissingBlocks.PushReferences | ipld/resolver/src/missing_blocks.rs:24-28 | replacing a stored block by its references keeps what is still to be found and reduces the work left |
| MissingBlocks.MissingIsReachable | ipld/resolver/src/missing_blocks.rs:10-11 | what the walk finds below an identifier is exactly what is reachable through stored blocks and not stored |
| MissingBlocks.LaterFirst | ipld/resolver/src/missing_blocks.rs:22-28 | what is found below later references comes before what is found below earlier ones |
| MissingBlocks.MissingReversed | ipld/resolver/src/missing_blocks.rs:22-28 | references that are all missing are reported in reverse, repetitions included |

## Left out

- RocksDB backends, CBOR, AMT and HAMT encodings, keccak and blake2b: foreign code, modelled as values and abstract hashes.
- `get_peaks` and the owner and access fields of the accumulator: plain copies.
- `iterate` of the key-value store, key and value codecs, and the panic on dropping an unfinished transaction.
- Transactions of the key-value store are entries in the backend's table, named by handles, rather than objects of their own.
- `render_merkle_tree`, hexadecimal text in dumps (malformed text makes `load` panic), the iterator and `validate` of the standard tree: text, or repetition of one check.
- `SubnetID::up`, string codecs of subnets and addresses, chain identifiers: `up` panics without a common child and no route needs it.
- ABCI wiring, interpreters, FVM execution, snapshot download and the parameters that a commit updates one by one: states are opaque, only heights and history are kept.
- StateHistory.HistoryBounded: holds for runs that never go back below the current height, which the consensus engine guarantees; `StateHistory.FallingImport` says what happens otherwise.
- StateHistory.Application.InitChain: a genesis on a store that already went beyond the empty state is filed, but the run is then unknown, because the consensus engine sends genesis once.
- Errors of the block store while reading, and cyclic stores, which content addressing rules out.
- libp2p services, CLI, RPC, settings, contract bindings, object store and chain metadata actors: input/output or easy next to the above.
