# Verified model of the EraVM batch verifier's tree, witness and storage logic

The verifier re-executes a sealed batch and must be convinced, from an untrusted witness, that the
batch started from the committed state tree and ended in the root it claims. This project models
that argument and the machinery around it, and proves it. `dafny verify dfyconfig.toml` checks
everything.

## The main results

- **Soundness and exactness of the witness verifier.** `Verifier.AcceptsIffFaithful`: against the
  tree behind the old root, the two-pass verifier accepts exactly the witnesses whose every entry
  tells the truth about the running tree, and returns the root and index of the tree obtained from
  the VM's logs alone.
- **Which batches are proved.** `Chain.ProvedIffHonest`: over a committed state the whole check of a
  batch (wire form, view, fold, previous commitment, blobs) succeeds exactly for the honest successors
  of that state, and commits to the state with the batch's writes. `Chain.ChainProvedIffHonest` says so
  of whole chains, trusting only the first predecessor commitment, and `Chain.ChainIsLinearHistory`
  that a proved chain is one linear history of the tree.
- **View authenticity.** `StorageView.ViewIsPreBatchState`: what the VM was shown is the pre-batch
  leaf, and only a key's last entry can change it; `StorageView.ConsistentIffUntouched` says exactly
  which accepted batches have a view.
- **Driving the VM.** `BatchExecution.RecordBatch`: on a machine that records its calls, whatever the
  compression outcomes, a batch succeeds exactly when a record of kept calls exists for it, and the
  machine then made exactly those, with no trace of an attempt that was rolled back.
- **Completeness.** `TreeProofs.ProcessBatch`: from instructions through the stored tree to the
  witness, what the producer makes is accepted with exactly the exceptions named there, and the
  verifier computes what the batch reports. Underneath, `MerklePaths.PathIsHonest` shows that the path
  read off the nodes stands for the true siblings, and `Producer.HonestWitnessAcceptedIff` that a
  witness of true siblings is accepted. `EndToEnd.ProducedBatchProvedIff` takes the honest batch on to
  the proved commitment, and says exactly which are proved.
- **Writing the tree.** `TreeUpdate.TreeUpdater.Insert`: splitting, moving and marking nodes leaves
  exactly the updated tree. `TreeHistory.WriteVersion`: the patch is a new version that shares old
  nodes, records exactly what it replaced and validates to the root hash of the updated tree;
  `TreeHistory.BuildHistory` says so of every version of a database built from nothing.
- **One function, two programs.** `Oracle.StreamingIsReference`: the streaming verifier and the
  three-step oracle agree on every input that is not in the legacy form.
- **Wire forms.** `Witness.LegacyRoundTrip`, `Witness.NormalizeKeepsMeaning` and
  `Witness.NormalizeIsIdempotent`: both stored forms are read back with their full meaning.
- **Cached Merkle tree.** `MiniMerkle.RootAfter`: any run of pushes and trims gives the root of the
  naive tree over all leaves ever pushed; paths and range proofs fold back to it.
- **Consistency check.** `Jellyfish.ValidatesIffSound`: the node checks, each on a node and its
  children only, pass exactly when every node below is in its place, carries the hash of the leaves
  below it and is as new as the newest of them. `Consistency.ConsistencyIsExact`: under every
  interleaving of its tasks, once
  the stored nodes validate the index check passes exactly when the stored leaves are numbered from 1
  without gaps; the validated hash is then the root hash of the binary tree over those leaves
  (`Jellyfish.ValidatedRootIsTreeRoot`).
- **Pruning.** `Pruning.RunIsSafe`: however extensions, permitted truncations and the single database
  accesses of prunes interleave, the latest version and all versions from the highest target on stay
  readable, and `StoredVersions.RetainedVersionsAreIntact`: they keep their tree, hash and verdict.
  `Pruning.TruncationStepIsExact` says exactly which truncations keep store and pruner in order: the
  version gone back to must be readable, and a prune under way must not be aimed at or beyond the
  versions dropped, whether or not it has read that far. `Pruning.BurstEnds` bounds the prunes of a run.

## How things are modelled

- Tree hashes are symbolic (`SparseTree.Hash`): equal digests have equal preimages, and
  `Unhashed` is any 32 bytes that are the digest of nothing, so an untrusted path may hold anything.
  Commitment digests are symbolic in the same way. The mini Merkle tree and the blob checks take any
  hash function as a parameter instead.
- The tree depth is a parameter `d`; keys are their bits, least significant first.
- The VM is its storage logs (tree part) or a deterministic step function (batch execution).
- Enumeration indices and counters are unbounded naturals.
- Loops and objects of the program are methods and classes here; each is proved against a function of
  its inputs or of its old state, and the results above are lemmas about those functions.
- Automatic induction is switched off wherever a lemma has a proof, so the proof is what its body says.
- The radix-16 tree is a map from places to nodes, its depth a multiple of four bits. Instructions are
  applied one after the other, each from the root down.
- A versioned database is a store together with its history, the trees of all versions as written. The
  pruner and the tree thread are a state machine whose steps are single database accesses; the
  methods of `Pruning.Database` take its steps, and `PruneUpTo` is proved to be an uninterrupted run.

## Where the code and its documentation differ

- `map_log_tree` compares the logged value of a read only when the leaf exists. A read of a missing
  key is accepted with any logged value (`Verifier.MissingReadValueIsUnchecked`);
  `Verifier.ReadValueExact` gives the exact condition.
- `trim_start` documents a panic only for too large a count. It also panics for a zero count on a
  tree that is empty, or fully trimmed and full, and only there (`MiniMerkle.MiniMerkleTree.TrimStart`,
  `MiniMerkle.ZeroTrimOfEmptyTree`, `MiniMerkle.ZeroTrimOfTrimmedTree`).
- `merkle_root` of an empty tree ignores an overriding empty-leaf hash
  (`MiniMerkle.EmptyRootIgnoresOverride`).
- The honest witness is rejected as legacy when the neighbour of entry 0's key, differing in the lowest
  bit only, is occupied (`Producer.HonestWitnessAcceptedIff`, `Producer.HonestWitnessRejected`); the
  code's comments accept this as a 255-bit key collision.
- `first_retained_version` relies on every version recording its predecessor's root. An empty root
  followed by a filled one is not recorded, so it stays readable below the reported version
  (`VersionedStore.OrphanIsNotReported`). In a store that only permitted steps have touched, the
  reported version is the first readable one exactly when there is no such root below it and pruning
  left no gap (`VersionedStore.FirstRetainedIsExact`). A gap needs a truncation between the pruner's
  first two reads (`Pruning.CalmRunReportsReadable`, `PruningRaces.TruncationCanLeaveGap`).
- Nothing in the code keeps a truncation away from a prune under way. One that goes back below what
  the pruner aims at, though to a readable version and behind all it has gathered, can lose a record
  for good, and a readable version is then never reported or pruned (`PruningRaces.TruncationCanForget`).
- The in-memory `PatchSet` drops all stale keys below the old version count on truncation, RocksDB only
  those of the truncated versions. They agree exactly when nothing is recorded below the truncated
  versions (`VersionedStore.InMemoryTruncationIsExact`, `VersionedStore.InMemoryTruncationForgets`);
  everything else is about the RocksDB truncation.

## Model

| member | source | states |
|---|---|---|
| SparseTree.FoldMerklePath | crates/merkle_tree/src/hasher/mod.rs:56-82 | The level-by-level loop computes the climb from the leaf through the path extended with empty-subtree hashes. |
| SparseTree.FoldAuthenticates | crates/merkle_tree/src/hasher/mod.rs:67-82 | A path folds to the root of a tree if and only if it carries that tree's leaf and that tree's siblings for the key. |
| SparseTree.HonestClimb | crates/merkle_tree/src/lib.rs:22-31 | The true siblings of a key climb to the true subtree hash at every level. |
| SparseTree.SiblingsFrame | crates/airbender_verifier/src/merkle_witness.rs:303-315 | Writing a leaf changes none of its own siblings, so one path proves the state before and after. |
| SparseTree.RootIsBinding | crates/merkle_tree/src/lib.rs:22-31 | Two well-formed trees with one root hash are the same tree. |
| SparseTree.AllVacant | crates/merkle_tree/src/hasher/mod.rs:220-227 | A subtree without occupied leaves hashes to the empty-subtree constant of its height. |
| Witness.EmptyPrefixIsMaximal | crates/merkle_tree/src/hasher/mod.rs:160-168 | The counted prefix is the longest run of empty-subtree hashes, each compared at the level its path position stands for; an over-long path is left whole. |
| Witness.StripKeepsMeaning | crates/merkle_tree/src/hasher/mod.rs:145-159 | Dropping the counted prefix leaves the full-depth path, hence every fold, unchanged for any input. |
| Witness.StripIsCanonical | crates/merkle_tree/src/witness.rs:103-116 | Paths of one meaning have one stored form, and stripping it again drops nothing. |
| Witness.WitnessInputMerklePaths.PushMerklePath | crates/merkle_tree/src/witness.rs:109-116 | Appends the path in its stripped form and touches no other entry. |
| Witness.WitnessInputMerklePaths.NormalizeStoredPaths | crates/merkle_tree/src/witness.rs:173-224 | Accepts exactly the normalisable wire forms, leaves a rejected witness as it was, and otherwise rewrites every path and returns both counters. |
| Witness.NormalizeKeepsMeaning | crates/merkle_tree/src/witness.rs:155-172 | After normalising, each entry of either wire form expands to what that form says it stands for, with all other fields untouched. |
| Witness.NormalizeIsIdempotent | crates/merkle_tree/src/witness.rs:133-137 | A normalised witness is a fixed point with zero counters, is not legacy, and has entry 0 below full depth and no path above it, so the fold's guards pass. |
| Witness.NormalizeConservesHashes | crates/merkle_tree/src/witness.rs:133-137 | Hashes stored after plus reclaimed equal hashes stored before plus restored. |
| Witness.CommonPrefix | crates/merkle_tree/src/witness.rs:341-347 | The cut is the position of the first difference with entry 0, or the full length. |
| Witness.LegacyRoundTrip | crates/merkle_tree/src/witness.rs:334-366 | What the legacy encoder wrote is accepted exactly when its first path is padded, and then normalises to the per-path form and expands to the original paths wherever the common prefixes ended. |
| Verifier.VerifyPathsAndNewRoot | crates/airbender_verifier/src/merkle_witness.rs:207-318 | The two loops compute the bind-then-fold verdict: guards, every binding before any fold, then the running root. |
| Verifier.FoldOne | crates/airbender_verifier/src/merkle_witness.rs:279-316 | One pass-2 step folds the path for the previous leaf, and for the new one on a write, with the checks in the program's order. |
| Verifier.EntryAcceptedIffFaithful | crates/airbender_verifier/src/merkle_witness.rs:246-317 | One entry binds and folds against the running root if and only if its key, kind, first-write flag, index, previous value, siblings, new root and read value are those of the tree; both passes then advance as the tree does. |
| Verifier.AcceptsIffFaithful | crates/airbender_verifier/src/merkle_witness.rs:184-318 | The whole verifier accepts if and only if the guards pass and every entry is faithful to the running tree, and returns the root and index of the tree with all VM writes applied in order. |
| Verifier.AcceptedFlagsAreTrue | crates/airbender_verifier/src/merkle_witness.rs:35-57 | In an accepted batch an entry is flagged a first write exactly when it writes a vacant key, and otherwise carries the index of the leaf in the running tree. |
| Verifier.LastWriteWins | crates/airbender_verifier/src/lib.rs:696-705 | After a run of logs a key holds the value of its last write, or what it held if there was none, and an occupied leaf keeps its index. |
| Verifier.ReadValueExact | crates/airbender_verifier/src/lib.rs:706-719 | In an accepted batch a read log carries its leaf's value exactly when the leaf is occupied or the logged value is zero. |
| Verifier.MissingReadValueIsUnchecked | crates/airbender_verifier/src/lib.rs:718 | On the empty tree a missing-key read is accepted with any logged value. |
| Verifier.AcceptedBatchNumbersLeaves | crates/airbender_verifier/src/lib.rs:696-705 | If the leaves were numbered 1 .. next - 1 bijectively, they still are after an accepted batch, and the index grew by the number of inserting entries. |
| Verifier.InsertionsAreConsecutive | crates/airbender_verifier/src/lib.rs:701-705 | Each inserting entry fills a vacant key and gets the next number after the insertions before it. |
| StorageView.BuildViewFromMerklePaths | crates/airbender_verifier/src/merkle_witness.rs:66-92 | Succeeds exactly when no read is flagged first write, no repeated write has index zero and no two entries for a key claim different leaves; the view then has exactly the witnessed keys with the claimed leaves. |
| StorageView.ClassifiedClaim | crates/airbender_verifier/src/merkle_witness.rs:35-57 | Classification fails exactly on the two malformed shapes, and otherwise finds the kind of the entry and the leaf it claims. |
| StorageView.ViewIsPreBatchState | crates/airbender_verifier/src/merkle_witness.rs:59-92 | If the view was built and the fold accepted, the view shows each witnessed key's pre-batch leaf, and the key keeps that leaf up to its last entry. |
| StorageView.ConsistentIffUntouched | crates/airbender_verifier/src/merkle_witness.rs:80-89 | A batch that the fold accepts has a view if and only if no log touches a key that an earlier one changed. |
| Oracle.PassesAgree | crates/airbender_verifier/src/lib.rs:742-775 | Without over-long paths, the interleaved pass succeeds exactly when classification and instruction generation do, with the same instructions and index. |
| Oracle.BoundKindsMatch | crates/airbender_verifier/src/merkle_witness.rs:282-290 | After pass 1 every instruction has its log's read/write kind, so the kind check of pass 2 cannot fail. |
| Oracle.FoldsAgree | crates/merkle_tree/src/hasher/proofs.rs:23-74 | Verifying expanded proofs gives step by step the verdict and root of folding the stored paths. |
| Oracle.StreamingIsReference | crates/airbender_verifier/src/merkle_witness.rs:357-396 | On every input the streaming verifier accepts exactly when the three-step reference does and the witness is not legacy, with the same root and index. |
| Producer.ProcessL1BatchFull | crates/merkle_tree/src/domain.rs:252-308 | The loop pushes the stripped entry of every instruction but the no-op updates, in order, with the starting index; the reported root is the last one of the extension, or the starting one, and the reported index one above the leaf count. |
| Producer.HonestEntryIsExact | crates/merkle_tree/src/domain.rs:254-291 | An honest instruction is omitted if and only if it writes the leaf that is already there; otherwise its entry is the one determined by the tree, field by field. |
| Producer.ProducedIsExact | crates/merkle_tree/src/domain.rs:252-300 | The witness of an honest batch is the list of the entries of its non-redundant instructions, determined by the tree alone. |
| Producer.EveryReadIsWitnessed | crates/merkle_tree/src/domain.rs:281-291 | The keys of the read entries are the keys of the read instructions, in order. |
| Producer.ReportedStateIsVerified | crates/merkle_tree/src/domain.rs:296-308 | What the producer reports for an honest batch is the root and next index of the tree after it, which is what the verifier computes when it accepts it. |
| Producer.HonestEntryIsFaithful | crates/merkle_tree/src/domain.rs:254-300 | A redundant honest instruction, and no other, yields no entry and leaves the tree as it is; any other yields an entry faithful to its VM log. |
| Producer.HonestWitnessAccepted | crates/merkle_tree/src/domain.rs:233-308 | The honest witness with the matching logs is accepted exactly when it is non-empty and entry 0 is not at full depth, and yields the tree's new root and next index. |
| Producer.HonestWitnessAcceptedIff | crates/airbender_verifier/src/merkle_witness.rs:224-241 | In terms of the tree, the honest witness is accepted exactly when an entry is left and the lowest-bit neighbour of entry 0's key is vacant. |
| Producer.HonestWitnessRejected | crates/airbender_verifier/src/merkle_witness.rs:235-241 | An honest read of a vacant key beside an occupied leaf is rejected, at any depth. |
| Producer.NormalizeLeavesProduced | crates/merkle_tree/src/domain.rs:255-260 | Normalisation rejects a produced witness only for a full-depth entry 0 and otherwise leaves it unchanged. |
| Producer.LegacyEncodingReadsBackProduced | crates/airbender_verifier/src/merkle_witness.rs:885-1028 | The same batch in the legacy encoding normalises to the very same witness. |
| Chain.PassThroughIsInjective | crates/airbender_verifier/src/commitment.rs:29-45 | Equal pass-through hashes mean equal index and root. |
| Chain.VerifyBatch | crates/airbender_verifier/src/lib.rs:458-580 | Normalising, building the view, folding, recomputing the previous commitment and checking the blobs, in the program's order, computes the batch verdict that Chain.ProvedIffHonest characterises. |
| Chain.ProvedIffHonest | crates/airbender_verifier/src/lib.rs:458-580 | If the claimed previous commitment is one to a state, the batch is proved if and only if the porter flag is off, old root, index and previous hashes are those committed to, the blobs verify, the wire form normalises, the guards pass, every entry is faithful and no changed key is touched again; the commitment is then to the new state with the batch's own metadata and auxiliary hashes. |
| Chain.NextProvedIffHonest | crates/airbender_verifier/src/lib.rs:471-491 | After an honest batch, which is proved, the next is proved on its commitment if and only if it is an honest successor and quotes its hashes. |
| Chain.ChainProvedIffHonest | crates/airbender_verifier/src/lib.rs:458-580 | Trusting only the first predecessor commitment, a run of batches is proved and linked if and only if each is an honest successor of the history before it. |
| Chain.ProvedBatchAdvances | crates/airbender_verifier/src/lib.rs:471-491 | A proved batch whose claimed predecessor commits to a state starts from exactly that state and its own commitment commits to the state with its writes applied. |
| Chain.ChainIsLinearHistory | crates/airbender_verifier/src/lib.rs:458-580 | In any run of linked batches each one starts from the root and index its predecessor ended with, and commits to the first tree with all writes of all batches so far applied; leaf numbering is kept. |
| Chain.ChainViewsAreAuthentic | crates/airbender_verifier/src/lib.rs:354-375 | Throughout such a run the VM of each batch was shown, for every witnessed key, the leaf of the history before that batch. |
| MiniMerkle.CompressLevel | crates/mini_merkle_tree/src/lib.rs:309-315 | Overwriting pairs from the front and truncating gives the list of parents. |
| MiniMerkle.MiniMerkleTree.FromHashes | crates/mini_merkle_tree/src/lib.rs:132-163 | A valid tree over the given leaves, of the least power of two at least the minimum size. |
| MiniMerkle.MiniMerkleTree.ComputeMerkleRootAndPath | crates/mini_merkle_tree/src/lib.rs:268-322 | Returns the naive root unless the tree is exhausted, and the requested side of the true path from any untrimmed position. |
| MiniMerkle.MiniMerkleTree.MerkleRoot | crates/mini_merkle_tree/src/lib.rs:172-182 | The naive root over all leaves ever pushed; for a tree that never had a leaf, the hasher's own empty root. |
| MiniMerkle.MiniMerkleTree.MerkleRootAndPath | crates/mini_merkle_tree/src/lib.rs:188-196 | The returned path folds the leaf at its absolute index to the root. |
| MiniMerkle.MiniMerkleTree.MerkleRootAndPathsForRange | crates/mini_merkle_tree/src/lib.rs:211-224 | The cache and the right edge pass the range verifier for the first leaves and rebuild the root. |
| MiniMerkle.MiniMerkleTree.PushHash | crates/mini_merkle_tree/src/lib.rs:229-237 | Appends the leaf, doubles a full tree, and keeps every cached left sibling true. |
| MiniMerkle.MiniMerkleTree.TrimStart | crates/mini_merkle_tree/src/lib.rs:248-261 | Fails only on an exhausted tree, which a positive count never meets; otherwise the root is unchanged and the new cache has a slot filled exactly for each set bit of the start index. |
| MiniMerkle.ZeroTrimOfEmptyTree | crates/mini_merkle_tree/src/lib.rs:248-261 | A zero trim of a new tree without leaves fails. |
| MiniMerkle.ZeroTrimOfTrimmedTree | crates/mini_merkle_tree/src/lib.rs:248-261 | A zero trim of a full tree whose leaf is trimmed fails. |
| MiniMerkle.ProofFolds | crates/mini_merkle_tree/src/tests.rs:141-163 | The true siblings of a leaf fold it to its ancestor at every level. |
| MiniMerkle.RangeProofFolds | crates/mini_merkle_tree/src/tests.rs:165-199 | From every level on, the left and right edges of a range rebuild the root in the range verifier. |
| MiniMerkle.FullNodeIsStable | crates/mini_merkle_tree/src/lib.rs:44-50 | A full subtree's hash is not changed by later leaves. |
| MiniMerkle.GrowthFollowsNextPower | crates/mini_merkle_tree/src/lib.rs:231-236 | Doubling exactly when full keeps the size the least allowed power of two. |
| MiniMerkle.RootAfter | crates/mini_merkle_tree/src/lib.rs:229-261 | After any run of pushes and trims from any initial leaves, the root is the naive root over all leaves, of the least allowed size, padded with the overriding empty leaf if there is one and any leaf was pushed. |
| MiniMerkle.EmptyRootIgnoresOverride | crates/mini_merkle_tree/src/lib.rs:173-176 | For an injective compression, the empty tree's root is the overridden one exactly when the override changes nothing. |
| Jellyfish.LoneLeaf | crates/merkle_tree/src/hasher/nodes.rs:12-25 | A leaf stored above the bottom hashes as the subtree in which it is the only leaf. |
| Jellyfish.InnerIsNode | crates/merkle_tree/src/hasher/nodes.rs:145-175 | Hashing sixteen optional children through four levels gives the binary subtree hash. |
| Jellyfish.ValidatedIsNode | crates/merkle_tree/src/consistency.rs:109-183 | A node that validates has the hash of the binary subtree over the leaves found below it, though computed from its own stored references. |
| Jellyfish.ValidatedRootIsTreeRoot | crates/merkle_tree/src/consistency.rs:78-107 | A root that validates carries exactly the root hash of the tree of its stored leaves. |
| Jellyfish.SameRootSameLeaves | crates/merkle_tree/src/lib.rs:119-139 | Databases that validate to one root hash answer every lookup alike, whatever the shape of their nodes. |
| Jellyfish.ValidatedIsNewest | crates/merkle_tree/src/consistency.rs:128-143 | A validated node has a leaf below it, none newer than it, and below the root one of its own version. |
| Jellyfish.ValidatesIffSound | crates/merkle_tree/src/consistency.rs:109-183 | A root validates if and only if below it every leaf is in its place, every reference leads to a node of its kind and carries the hash of the leaves below, and every internal node is as new as its newest leaf. |
| LeafIndices.FetchOrSetsOneBit | crates/merkle_tree/src/consistency.rs:258-265 | Setting a bit sets that bit and no other, across word boundaries. |
| LeafIndices.StepKeepsInv | crates/merkle_tree/src/consistency.rs:203-226 | Each atomic step keeps: set bits are exactly the indices held by tasks, held indices are distinct and in range, the counter counts finished tasks, and a failed task has a real fault. |
| LeafIndices.CheckIsExact | crates/merkle_tree/src/consistency.rs:203-238 | Under every interleaving the finished check passes exactly when the indices are a permutation of 1 .. n. |
| LeafIndices.FailureIsReal | crates/merkle_tree/src/consistency.rs:203-226 | A task that fails, at any point of any run, has an index that is zero, too large or shared. |
| LeafIndices.PermutationCovers | crates/merkle_tree/src/consistency.rs:70-77 | A permutation uses every number of 1 .. n. |
| Consistency.WalkMeetsLeaves | crates/merkle_tree/src/consistency.rs:109-183 | In a validated database the walk meets every leaf a lookup finds, with its key, each key once. |
| Consistency.ConsistencyIsExact | crates/merkle_tree/src/consistency.rs:78-107 | Once the nodes validate, the index check passes under every interleaving exactly when no stored leaf is vacant and the stored leaves are numbered 1 .. leaf count bijectively; the tree is then well formed and the validated hash is its root. |
| VersionedStore.ReadableIffIncluded | crates/merkle_tree/src/lib.rs:110-131 | Every lookup in a version gives what was written exactly when the store has all nodes of that version unchanged. |
| VersionedStore.ReplacedStaysDead | crates/merkle_tree/src/pruning.rs:60-70 | A node that one version replaced is used by no later version. |
| VersionedStore.RootsAreReplaced | crates/merkle_tree/src/storage/patch.rs:182-190 | Each version records its predecessor's root, unless that root is empty and its own is not; no other version records it. |
| VersionedStore.ReadableIffNothingLost | crates/merkle_tree/src/pruning.rs:137-194 | A version is readable exactly when no pruned version replaced one of its nodes. |
| VersionedStore.ExtendKeepsInv | crates/merkle_tree/src/storage/rocksdb.rs:355-409 | Writing a version, with leftovers under its number deleted and what it replaced recorded, keeps contents and records exact. |
| VersionedStore.PruneKeepsInv | crates/merkle_tree/src/storage/rocksdb.rs:433-449 | Deleting exactly the nodes and records of a range of versions keeps contents and records exact. |
| VersionedStore.TruncationIsExact | crates/merkle_tree/src/lib.rs:277-287 | A truncation keeps contents and records exact if and only if the version it goes back to is still readable. |
| VersionedStore.TruncationUnderPrune | crates/merkle_tree/src/pruning.rs:162-189 | A patch fully gathered before a truncation and written after it, with nothing in between, spares the version truncated to if and only if it stops there, or that version is an unrecorded empty root. |
| VersionedStore.InMemoryTruncationIsExact | crates/merkle_tree/src/storage/database.rs:470-479 | The in-memory truncation keeps the records that the RocksDB one keeps if and only if none lies below the truncated versions. |
| VersionedStore.InMemoryTruncationForgets | crates/merkle_tree/src/storage/database.rs:470-479 | Cutting three empty versions back to two, it loses the record of version 1, so that readable version 0 is no longer reported. |
| VersionedStore.FirstRetainedIsExact | crates/merkle_tree/src/lib.rs:290-299 | Below the reported version exactly the unrecorded empty roots are readable; it and all later versions are readable if and only if there is no gap; it is the first readable one if and only if there is neither. |
| VersionedStore.OrphanIsNotReported | crates/merkle_tree/src/storage/patch.rs:182-190 | After an empty version and a filled one, 1 is reported and version 0 is readable. |
| Pruning.StepKeepsInv | crates/merkle_tree/src/pruning.rs:141-190 | Each single access of the pruner and each extension or permitted truncation keeps contents, records and what the pruner has gathered exact. |
| Pruning.RunIsSafe | crates/merkle_tree/src/pruning.rs:137-194 | In every run of such steps the latest version and all versions from the highest target on are readable at any time. |
| Pruning.TruncationStepIsExact | crates/merkle_tree/src/lib.rs:277-287 | At any point of a prune, a truncation leaves store and pruner in order if and only if the version gone back to is readable and the pruner's effective target survives. |
| Pruning.CalmRunReportsReadable | crates/merkle_tree/src/lib.rs:290-299 | If no truncation falls between reading the least stale version and the manifest, a version is readable at any time if and only if it is the reported one, a later one or an unrecorded empty root. |
| PruningRaces.TruncationCanLeaveGap | crates/merkle_tree/src/pruning.rs:141-150 | For any key limit, a run from an empty database with a truncation in that place ends with version 0 reported and version 2 lost. |
| PruningRaces.TruncationCanForget | crates/merkle_tree/src/pruning.rs:162-189 | For any key limit above one, a run from an empty database in which a truncation below the effective target, to a readable version behind all that was gathered, ends with version 2 reported although version 1 is readable and recorded nowhere. |
| Pruning.BurstEnds | crates/merkle_tree/src/pruning.rs:211-245 | With targets up to a bound and no truncation behind a pruned version, a run deletes at most as often as the bound, whatever interleaves. |
| Pruning.Database.Extend | crates/merkle_tree/src/storage/rocksdb.rs:355-409 | Puts the new version's nodes over its leftovers and records exactly what it replaced. |
| Pruning.Database.TruncateRecentVersions | crates/merkle_tree/src/lib.rs:277-287 | Drops recent versions with their records for any count; the database stays exact if and only if the version gone back to was readable. |
| Pruning.Database.MinStaleKeyVersion | crates/merkle_tree/src/storage/rocksdb.rs:412-417 | The least version with records, if any. |
| Pruning.Database.Prune | crates/merkle_tree/src/storage/rocksdb.rs:433-449 | Deletes exactly the gathered nodes and their records. |
| Pruning.Database.PruneUpTo | crates/merkle_tree/src/pruning.rs:137-194 | Is an uninterrupted run of the pruner's steps; removes exactly the nodes recorded below the reported end and reports their number, that end being the first at which the number reaches the limit or else right after the target; without statistics nothing prunable is left. |
| Pruning.Database.PruneBurst | crates/merkle_tree/src/pruning.rs:211-245 | The zero-wait loop for a fixed target ends, having deleted exactly the nodes recorded as stale up to the target. |
| Pruning.Database.FirstRetainedVersion | crates/merkle_tree/src/lib.rs:290-299 | Reports the version that VersionedStore.FirstRetainedIsExact characterises. |
| StoredVersions.ReadableVersionIsIntact | crates/merkle_tree/src/lib.rs:110-131 | A readable version has the root, the tree and the consistency verdict and hash that it had when written, whatever else the store holds. |
| StoredVersions.RetainedVersionsAreIntact | crates/merkle_tree/src/pruning.rs:137-194 | So it is, at any time of any run, for the latest version and all versions from the highest target on. |
| TreeUpdate.LeafIsUnique | crates/merkle_tree/src/storage/mod.rs:119-139 | In a well-shaped tree a key has at most one leaf. |
| TreeUpdate.TreeUpdater.Traverse | crates/merkle_tree/src/storage/patch.rs:557-573 | Ends at the key's leaf, at another key's leaf on its way, or at a missing child of an internal node or of the empty tree. |
| TreeUpdate.TreeUpdater.SplitLeaf | crates/merkle_tree/src/storage/mod.rs:158-189 | Replaces a leaf by the nodes down to where the keys part, with both leaves below; the tree gains exactly the new leaf. |
| TreeUpdate.TreeUpdater.AddToNode | crates/merkle_tree/src/storage/mod.rs:191-208 | Puts the leaf where its way ends; the tree gains exactly that leaf. |
| TreeUpdate.TreeUpdater.MarkWay | crates/merkle_tree/src/storage/mod.rs:218-227 | After marking the way up every reference has the version of the newest node below it, and what lies below older references is as it was. |
| TreeUpdate.TreeUpdater.Insert | crates/merkle_tree/src/storage/mod.rs:140-230 | The working set holds the tree with the entry written, and the log says what was there before. |
| TreeUpdate.TreeUpdater.Finalize | crates/merkle_tree/src/storage/patch.rs:369-450 | Afterwards every reference carries the hash of the node it refers to; nothing else changed. |
| TreeHistory.ViewIsTreeOf | crates/merkle_tree/src/storage/patch.rs:440-446 | A working set is written as one complete tree without unreachable nodes. |
| TreeHistory.ViewCopies | crates/merkle_tree/src/storage/patch.rs:432-446 | Every node of the new version under an older key is the one the previous version has there. |
| TreeHistory.StaleIsReplaced | crates/merkle_tree/src/storage/patch.rs:412-439 | What is recorded as stale is exactly what the previous version has and the new one has not, but for an empty root followed by a filled one. |
| TreeHistory.PatchExtendsHistory | crates/merkle_tree/src/storage/patch.rs:369-450 | Hence the patch is what the store expects of the next version. |
| TreeHistory.FinishedIsTree | crates/merkle_tree/src/storage/patch.rs:335-367 | The written version validates to the root hash of its tree, and lookups in it find exactly that tree. |
| TreeHistory.ExtendWorkingSet | crates/merkle_tree/src/storage/mod.rs:295-325 | All entries are written in order, with the right log for each, and leaves are counted. |
| TreeHistory.WriteVersion | crates/merkle_tree/src/lib.rs:237-243 | The database gains a version that fits its history and holds the tree with all entries written, from which the next can start. |
| TreeHistory.BuildHistory | crates/merkle_tree/src/lib.rs:237-243 | In a database built from nothing by batches, each version holds the tree of all entries up to it. |
| MerklePaths.DivergingBitIsHighest | crates/merkle_tree/src/utils.rs:117-120 | The bit found is the highest at which the keys differ. |
| MerklePaths.PathIsHonest | crates/merkle_tree/src/storage/patch.rs:606-654 | The path read off the nodes, extended by empty hashes, is the list of the key's true siblings. |
| TreeProofs.ProveInstruction | crates/merkle_tree/src/storage/proofs.rs:81-104 | One instruction returns the true previous leaf, the true siblings and the true new root. |
| TreeProofs.ExtendWithProofs | crates/merkle_tree/src/storage/proofs.rs:60-107 | A whole batch does, instruction by instruction. |
| TreeProofs.ProcessBatch | crates/merkle_tree/src/domain.rs:233-308 | The witness made from the stored tree is the one determined by the tree and the instructions; it is accepted exactly when an entry is left and the lowest-bit neighbour of entry 0's key is vacant, and the verifier then computes the reported root and index. |
| EndToEnd.ProducedBatchProvedIff | crates/airbender_verifier/src/lib.rs:354-580 | A batch from an honest producer over a committed state is proved if and only if its other claims are honest, an entry is left, the lowest-bit neighbour of entry 0's key is vacant and no changed key is touched again; it then commits to the state after all instructions. |
| EndToEnd.DeduplicatedIsUntouched | crates/airbender_verifier/src/merkle_witness.rs:59-65 | With one instruction per key no changed key is touched again, so the view of an honest deduplicated batch always exists. |
| Blobs.PaddedBlobFor | crates/airbender_verifier/src/commitment.rs:94-103 | Present exactly when the pubdata reaches the slot; full size, pubdata bytes first and zeros after. |
| Blobs.OpeningValue | crates/airbender_verifier/src/commitment.rs:157-168 | The Horner loop over the 31-byte chunks equals, in the field, the polynomial whose coefficients are given byte by byte, lowest byte and highest degree first. |
| Blobs.LittleEndianAppend | crates/airbender_verifier/src/commitment.rs:165 | A byte appended to a little-endian number counts by its position. |
| Blobs.BigEndianIsReversed | crates/airbender_verifier/src/commitment.rs:171-182 | Big-endian is little-endian of the reversed bytes. |
| Blobs.BigEndianRoundTrip | crates/airbender_verifier/src/commitment.rs:171-182 | The bytes of a number that fits are of the given length and give the number back. |
| Blobs.FieldElementsFit | crates/airbender_verifier/src/commitment.rs:157-182 | Every chunk is below the modulus, so nothing is lost in reducing it, and a field element is read back from its 32 bytes. |
| Blobs.BlobBytes | crates/airbender_verifier/src/commitment.rs:224-236 | The no-copy slice and the reused scratch buffer both give the padded blob. |
| Blobs.VerifyBlobHashes | crates/airbender_verifier/src/commitment.rs:193-252 | Accepts exactly when the lengths match and each slot is all zero or carries the linear hash and opening commitment of its padded blob. |
| Blobs.ComputeBlobLinearHashes | crates/airbender_verifier/src/commitment.rs:105-121 | The hash of the padded blob for every slot that the pubdata reaches, zero for the others. |
| Blobs.ClaimsBindPubdata | crates/airbender_verifier/src/commitment.rs:184-252 | Two runs that pass with the same claims have the same bytes in every claimed slot, zeros after the end included, unless two of their blobs collide under the hash. |
| BatchExecution.ExecuteTx | crates/airbender_verifier/src/lib.rs:777-802 | Keeps the compressed attempt if it compressed and otherwise the uncompressed one, both from the state it found; fails exactly when the kept one did not compress or halted, and on success leaves the snapshot stack as it was. |
| BatchExecution.ExecuteVm | crates/airbender_verifier/src/lib.rs:626-685 | Succeeds exactly when the last block is empty, every event of the batch succeeds in turn and the tip succeeds; the VM is then where those events leave it, with its snapshot stack as it began. |
| BatchExecution.BatchScriptRunsEveryTx | crates/airbender_verifier/src/lib.rs:635-669 | The events contain every transaction of the witness exactly once, in order. |
| BatchExecution.BatchScriptOpensEveryBlock | crates/airbender_verifier/src/lib.rs:643-666 | The events open every block after the first exactly once, in order. |
| BatchExecution.RecordBatch | crates/airbender_verifier/src/lib.rs:626-813 | On a recording machine with any compression outcomes, the batch succeeds if and only if the last block is empty, there is a record of kept calls, block by block with each later block opened before its own transactions, and the tip succeeds after it; the machine has then made exactly those calls and the finalisation. |
| BatchExecution.RecordIffAnswers | crates/airbender_verifier/src/lib.rs:635-669 | The records of a batch, told block by block, are exactly the call lists that answer its events one by one. |
| Merging.MinHead | crates/merkle_tree/src/utils.rs:152-159 | Picks the first part whose head has the least index. |
| Merging.MergeByIndex | crates/merkle_tree/src/utils.rs:122-142 | Returns every item of every part once, labelled with its part, ordered by index with ties to the lowest part. |
| Merging.MergeIsUnique | crates/merkle_tree/src/utils.rs:122-142 | Those conditions determine the merged list: any two lists meeting them are equal. |
| SmallMap.SmallMap.Get | crates/merkle_tree/src/utils.rs:46-60 | Returns the map's value for the key, found by counting lower set bits. |
| SmallMap.SmallMap.Insert | crates/merkle_tree/src/utils.rs:101-114 | Updates the represented map at the key and nowhere else, for a new and for an existing key. |
| SmallMap.SmallMap.Last | crates/merkle_tree/src/utils.rs:66-71 | The pair with the greatest key, or none for an empty map. |
| SmallMap.SmallMap.Len | crates/merkle_tree/src/utils.rs:42-44 | The number of keys of the represented map. |
| SmallMap.SmallMap.Entries | crates/merkle_tree/src/utils.rs:62-78 | Exactly the pairs of the map, in strictly increasing key order. |
| Median.MedianTracker.Add | host/src/statistics.rs:177-201 | The halves stay the sorted samples cut in the middle, the odd one in the lower half. |
| Median.MedianTracker.MedianWith | host/src/statistics.rs:203-219 | The middle sample, or the mean of the middle two, of the sorted samples; none without samples. |
| Median.SortOfSorts | host/src/statistics.rs:160-161 | The reference order of the samples is sorted and a permutation of them. |

## Left out

- The EraVM, its storage snapshot and the fill-in of declared but unwitnessed slots with empty values: opcode semantics are not part of this model.
- Blake2s, Keccak-256 and SHA-256 inside, and signatures: hashes are symbolic or parameters.
- 64-bit overflow of the enumeration index, and the 2^32-leaf limit of the mini Merkle tree.
- The text and relative order of errors when a witness has several faults.
- TreeProofs.ExtendWithProofs: the split into sixteen parallel parts, the internal root kept in that mode, preloading of ancestors and hash caches; instructions run one after the other, hashes are brought up to date after each, and of the parallel form only the merge is modelled (`Merging.MergeByIndex`).
- Node serialisation, RocksDB batching, layered patch sets, and the stale-key repair task.
- `TreeRangeDigest`, tree recovery, getters and rollback of logs.
- The proof public input, bootloader heap expansion, metadata and auxiliary hashes: straight-line hashing; the last two enter the commitment as given digests.
- The FRI, SNARK and GPU host pipeline, downloads, command line, cycle estimation and calibration scripts.
- Median.MedianTracker.MedianWith: the mean of two middle samples is taken over the reals, without floating-point rounding.
- Memory release, capacities, metrics and logging.
