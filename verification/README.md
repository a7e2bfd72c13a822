# A verified model of the versioned store

This project models the state store of a blockchain node in Dafny and proves what its parts promise each other.

* **MemIAVL** is a leaf-based AVL tree with version stamps and lazily cached hashes. Nodes newer than a
  copy-on-write version are edited in place, older ones are cloned, and snapshots on disk can be the lower part of
  a tree. The tree is modelled twice: as a value (`Avl`, `Stamps`, `Versioned`, `Hashing`, `HashBinding`) and as objects
  on the heap (`MemNodes`, `Trees`, `Forest`, `Replay`), and the second is proved to compute the first, alias by alias.
* **Snapshots** are pointer-free arrays in post-order (`Snapshot`), stored as bytes (`SnapshotFiles`), exported in
  sequence or from the nodes (`Exporting`, `TreeExport`) and imported by a stack machine (`Importing`).
* **The multi-tree and its log** (`MultiTrees`, `PendingLog`, `UpgradeOrder`, `UpgradeLayers`) and **the durability
  protocol** (`Durability`, `Recovery`, `Histories`, `Progress`) are a state machine over atomic steps: commits, the
  asynchronous log writer, the background rewrite, the switch, pruning, reopening, rolling back and crashing,
  interleaved in any order. `MidBlock` (with `Marks`), `Crashes` and `Rollbacks` (with `InfoBinding`) say what happens
  outside the conditions of that protocol.
* **Readers**: lookups (`Leaves`, `Lookup`), iterators (`Iteration`), ICS 23 proofs (`Proofs`, `NodeProofs`) and the
  window of historical versions (`QueryCache`), on top of the database in `HistoricalQueries`. They walk nodes in memory
  and persisted nodes alike.
* **VersionDB's pipeline**: delta encoding, heap merge and external sort (`DeltaEncoding`, `MergeHeap`, `ExtSort`),
  the items and their two orders (`SorterItems`), table files (`TableFiles`), and change-set files (`ChangeSets`).

The main results, each for all inputs or for every history:

1. `Forest.RunAll`: trees copied from one another at commit boundaries never notice each other, although they share
   nodes that are edited in place; `Forest.UncommittedCopyShares` shows the boundary is needed.
2. `Histories.SwitchInEveryRun`, `Histories.RecoverInEveryRun`, `Histories.PruningExact`, `Progress.EveryRunSettles`:
   the switch to a rewritten snapshot is invisible, every version from a kept snapshot to the end of the log loads as it
   was committed, pruning keeps exactly the recent snapshots, and nothing of this ever gets stuck.
3. `Replay.ReplayMatches`: replay on a reloaded tree gives the same tree and root hash as the live one.
4. `Snapshot.SnapshotRoundTrip` with `SnapshotFiles.WriteSnapshot`: tree to bytes to tree, with no 8- or 32-bit step
   losing anything.
5. `Versioned.RunRefinesMap`, `Versioned.HeightBound`, `Stamps.SetStampsExact`, `HashBinding.HashBinds`: what every
   sequence of updates keeps, the height bound, which branches are stamped, and that a root hash stands for one tree.
6. `Importing.ExportImport`, `Importing.StreamIsPostOrder`: export and import invert each other, and no stream means
   anything but a tree.
7. `NodeProofs.GetNonMembershipProof`, `Iteration.Collect`, `Lookup.LookupsInvert`: readers return exactly what is
   there.
8. `HistoricalQueries.Serve`, `HistoricalQueries.BackfillCovers`: however commits, backfill and the database's own work
   interleave, every version the query cache serves is the one that was committed, and a backfill covers its window.
9. `QueryCache.Run`, `ExtSort.ExternalSort`, `TableFiles.ConvertStore`, `ChangeSets.FileRoundTrip`,
   `ChangeSets.FileCutOff`: the window, the sort, the table files, and change-set files, whole or cut off.

SHA-256 is an arbitrary function from bytes to 32 bytes, so nothing depends on its values. Byte strings are
sequences of numbers below 256 in lexicographic order. Integers are unbounded; where the source's width matters, the
truncation or wrap-around is written out.

Some statements that one might expect turned out to need a condition:

* A copy taken with uncommitted changes is not isolated (`Forest.UncommittedCopyShares`), and a rewrite begun inside a
  block publishes, and later loads, the unfinished block under the last version. It is the committed version exactly
  when the block's upgrades leave the trees alone and none of its pairs leaves a mark (`MidBlock.MidBlockRewrite`).
* A set gives a new stamp, and so a new hash, to a pair of leaves that it does not change when it goes between the pair
  and its sibling (`Stamps.PairStampedAnew`); otherwise a branch is stamped only for a new child
  (`Stamps.SetStampsExact`), and by a removal always (`Stamps.RemoveKeepsStamps`).
* More pairs for a store replay as they were applied, whatever they are, exactly when the log holds none for the store
  behind its first change set (`PendingLog.MergeExact`).
* Upgrades handed over in two calls can replay differently (`PendingLog.SharedNameDiverges`): whatever follows the
  first call replays exactly when that call left the trees in name order or all but the first of them new
  (`UpgradeOrder.SplitExact`).
* After a crash the database is sound exactly when the log had reached every snapshot on disk (`Recovery.CrashExact`).
  A snapshot can be published, and linked, before the asynchronous writer has logged its block
  (`Crashes.SnapshotAheadOfLog`), and then the writer refuses the next block (`Crashes.WriterAfterCrash`).
* Closing does not wait for pruning, and a pruning left over can remove the snapshot that a rollback made the current
  one: a history in which it does is `Rollbacks.RollbackLosesCurrent`, and `Rollbacks.RollbackExact` says exactly when.
* A snapshot that a rollback could not remove loads as the version that was rolled back
  (`Rollbacks.LeftSnapshotLoads`); it is harmless exactly when the new history commits the same trees there
  (`Rollbacks.LeftSnapshotHarmless`), which comparing the commit info decides (`Rollbacks.SameInfoHarmless`).
* A change-set file that is cut off inside a version is not always reported: the iterators take it for complete exactly
  when the cut falls between two fields (`ChangeSets.FileCutOff`).
* A tree is exported from its snapshot whenever the versions agree, also with uncommitted changes: that is the tree's
  own stream exactly when the changes leave no mark (`TreeExport.ExportExact`).

## Model

| member | source | states |
|---|---|---|
| `Bytes.LessAtDifference` | memiavl/node.go:44-62 | byte strings are ordered by the first place at which they differ: one comes first exactly when it ends there or has the smaller byte |
| `Encoding.UvarintRoundTrip` | client/changeset/changeset.go:159-192 | every unsigned 64-bit number written as a varint is read back by the ten-byte reader, leaving exactly what follows it |
| `Encoding.VarintRoundTrip` | memiavl/node.go:144-157 | every signed 64-bit number written as a varint is read back by its parity, an even one halved and an odd one negative, leaving what follows |
| `Encoding.UvarintCut` | client/changeset/changeset.go:159-192 | a varint that is cut off reads as an unexpected end of file, and as a plain one only if nothing of it is there |
| `Encoding.UvarintSizeExact` | client/changeset/changeset.go:356-364 | the bit-length formula for the size of a varint equals its true length for every unsigned 64-bit number |
| `Encoding.UvarintBytes` | client/changeset/changeset.go:125-142 | byte i of a varint holds the i-th seven bits, and its high bit is set exactly when more follow |
| `Encoding.RoundTrip32` | memiavl/layout_little_endian.go:41-47 | four little-endian bytes give back every 32-bit number |
| `Encoding.RoundTrip64` | memiavl/layout_little_endian.go:37-39 | eight little-endian bytes give back every 64-bit number |
| `Encoding.LittleEndianBytes` | memiavl/layout_little_endian.go:37-47 | byte i of a fixed-length number holds its i-th eight bits |
| `Avl.RebalanceBalances` | memiavl/mem_node.go:136-161 | rebalancing a branch whose children differ by at most two levels gives a balanced tree with exact heights and sizes, no higher than before |
| `Avl.RebalanceLeft` | memiavl/mem_node.go:136-148 | a branch two levels too high on the left is rotated once exactly where that restores the balance, and otherwise its inner grandchild is put on top, with every other part as it was |
| `Avl.RebalanceRight` | memiavl/mem_node.go:149-161 | the mirror image |
| `Avl.RebalanceOrders` | memiavl/mem_node.go:110-161 | rotations keep the leaves ordered and every branch key the smallest key of its right subtree |
| `Avl.RebalanceContents` | memiavl/mem_node.go:110-161 | rotations keep the finite map of stamped values |
| `Avl.RebalanceStamps` | memiavl/mem_node.go:110-161 | rotations keep every child no newer than its parent |
| `Avl.SetBalances` | memiavl/node.go:37-90 | setting a key keeps sibling heights within one, heights and sizes exact, and grows the height by at most one |
| `Avl.SetOrders` | memiavl/node.go:37-90 | setting a key keeps the search order and the branch keys |
| `Avl.SetContents` | memiavl/node.go:37-90 | setting a key updates exactly that entry of the map, with the new version, and reports an update exactly when the key was there |
| `Avl.SetKeeps` | memiavl/node.go:37-90 | the three properties together: a set keeps a well-formed tree well formed and stamped with the version being built |
| `Avl.RemoveBalances` | memiavl/node.go:96-137 | removing a key keeps the tree balanced with exact heights and sizes, at most one level lower |
| `Avl.RemoveOrders` | memiavl/node.go:96-137 | removing a key keeps the search order; a replaced smallest key is handed up to the branch that needs it |
| `Avl.RemoveContents` | memiavl/node.go:96-137 | removing a key removes exactly that entry, and reports nothing removed exactly when it was absent |
| `Avl.RemoveKeeps` | memiavl/node.go:96-137 | a removal keeps a well-formed tree well formed, or leaves it as it was |
| `Stamps.RemoveKeepsStamps` | memiavl/node.go:96-137 | a removal stamps a branch only because it has another child: every branch of the result with the two children of a branch of the tree is that branch |
| `Stamps.SetStampsExact` | memiavl/node.go:37-90 | the same holds of a set exactly when its path does not lead it between a left pair of leaves, stamped before the version being built, and the single leaf beside that pair |
| `Stamps.PairStampedAnew` | memiavl/mem_node.go:136-161 | the input that shows it: set between a pair and its sibling, a key makes a double rotation that puts the pair together again under a new stamp |
| `Versioned.PutKeeps` | memiavl/tree.go:151-162 | a set on a tree, empty or not, updates the map at one key and keeps the state valid |
| `Versioned.MissingIsEmpty` | memiavl/tree.go:151-155 | a missing value, as an empty one comes back from the log, is set as an empty one |
| `Versioned.DeleteKeeps` | memiavl/tree.go:164-171 | a removal on a tree takes one key out of the map and keeps the state valid |
| `Versioned.SaveKeeps` | memiavl/tree.go:174-186 | saving a version keeps the root and the entries |
| `Versioned.UpdatedIffPresent` | memiavl/node.go:37-90 | the update flag is set exactly for a present key |
| `Versioned.RunRefinesMap` | memiavl/tree.go:141-186 | over every sequence of sets, removals and saves the tree stays a balanced, ordered, stamped search tree and denotes the map that sequence defines, with the version each value was written at |
| `Versioned.AtLeastMinLeaves` | memiavl/mem_node.go:90-161 | a balanced tree of a given height has at least the Fibonacci number of leaves of that height |
| `Versioned.HeightBound` | memiavl/snapshot.go:587-599 | fewer than 2^32 leaves means at most 45 levels |
| `HashBinding.HashBinds` | memiavl/node.go:141-196 | two different well-formed trees with one root hash yield a collision: two different byte strings, one hashed for each tree, with one digest |
| `HashBinding.SameParts` | memiavl/node.go:141-196 | the bytes hashed for a node parse one way only: kind, height, size, version and parts are determined by them |
| `HashBinding.HashedBytes` | memiavl/node.go:141-196 | a node is hashed over signed varints of height, size and version in that order, then a leaf over its length-prefixed key and the digest of its value, a branch over the hashes of its left and right child, and nothing follows |
| `Snapshot.WriteGrows` | memiavl/snapshot.go:582-600 | writing a tree only appends, as many leaf records as leaves and one branch record fewer |
| `Snapshot.WrapAround` | memiavl/snapshot.go:582-600 | the casts and the 32-bit additions and subtractions are those of unsigned machine numbers |
| `Snapshot.FitsChildren` | memiavl/snapshot.go:587-599 | when a tree fits, none of the 8- and 32-bit casts of its root branch loses a bit, and its children fit in turn |
| `Snapshot.WriteHolds` | memiavl/snapshot.go:582-600 | after writing, the arrays hold the tree at consecutive leaf and branch positions, whatever was there before |
| `Snapshot.WriteHoldsHashes` | memiavl/snapshot.go:582-600 | and every record carries the hash of its node |
| `Snapshot.IndexArithmetic` | memiavl/persisted_node.go:218-248 | no 32-bit step of the start-leaf, end-leaf and left-branch arithmetic wraps, and each gives the position meant |
| `Snapshot.DecodeHeld` | memiavl/persisted_node.go:104-132 | reading a held subtree through the child index arithmetic gives that subtree |
| `Snapshot.SnapshotRoundTrip` | memiavl/snapshot.go:509-600 | for every well-formed tree that fits, decoding the written arrays from the last branch gives back exactly that tree |
| `Snapshot.StoredDecodes` | memiavl/persisted_node.go:53-143 | a node of a stored tree denotes that tree |
| `Snapshot.NodeView` | memiavl/persisted_node.go:61-143 | height, size, version, key, value, children and hash read from a persisted node are those of the tree it denotes |
| `Snapshot.RootDenotes` | memiavl/snapshot.go:238-243 | the root node of a freshly opened snapshot denotes the tree it was written from |
| `SnapshotFiles.NodeRoundTrip` | memiavl/layout_little_endian.go:24-51 | the 52 bytes of a branch record read back field by field |
| `SnapshotFiles.LeafRoundTrip` | memiavl/layout_little_endian.go:67-85 | the 52 bytes of a leaf record read back field by field |
| `SnapshotFiles.NodeLayout` | memiavl/persisted_node.go:10-19 | where the fields of a branch record are: height, pending subtrees, version, size, key leaf and hash at their offsets |
| `SnapshotFiles.LeafLayout` | memiavl/persisted_node.go:21-26 | where the fields of a leaf record are: version, key length, key offset and hash |
| `SnapshotFiles.AppendedPair` | memiavl/snapshot.go:285-311 | a pair appended to the key-value file reads back at its offset, with the key length from the leaf record or from the file |
| `SnapshotFiles.PairStays` | memiavl/snapshot.go:302-311 | what can be read from the key-value file, by either reader, stays the same when the file grows |
| `SnapshotFiles.KeyValueLayout` | memiavl/snapshot.go:509-530 | a key and its value in the key-value file, each behind four bytes of its length |
| `SnapshotFiles.SnapshotWriter.WriteKeyValue` | memiavl/snapshot.go:509-530 | appends one length-prefixed pair and advances the offset to the end of the file |
| `SnapshotFiles.SnapshotWriter.WriteLeaf` | memiavl/snapshot.go:532-559 | the three files read back as the old records plus one leaf |
| `SnapshotFiles.SnapshotWriter.WriteBranch` | memiavl/snapshot.go:561-578 | the three files read back as the old records plus one branch |
| `SnapshotFiles.SnapshotWriter.WriteRecursive` | memiavl/snapshot.go:582-600 | the bytes written for a tree read back, through the source's own readers, as the records of that tree |
| `SnapshotFiles.EveryTreeFits` | memiavl/snapshot.go:587-599 | every balanced tree with fewer than 2^32 leaves can be written without overflow |
| `SnapshotFiles.PendingBelowDepth` | memiavl/snapshot.go:586-588 | the subtrees pending before a branch are at most as many as it is deep, and its depth plus its height is at most the height of the tree |
| `SnapshotFiles.LeafPendingBelowDepth` | memiavl/snapshot.go:581-588 | when a leaf is written, the subtrees pending before it are at most as many as it is deep |
| `SnapshotFiles.WriteSnapshot` | memiavl/snapshot.go:387-484 | writing a whole tree, or none, to bytes: the metadata and size checks on opening pass and give the version, decoding from the root gives the tree, and no pending count or height is cut off |
| `SnapshotFiles.ChecksPass` | memiavl/snapshot.go:67-130 | files of matching record counts with their metadata pass every check on opening |
| `SnapshotFiles.ChecksExact` | memiavl/snapshot.go:67-130 | a snapshot is opened exactly when the metadata are those of its version and the files hold whole records, one leaf more than branches or none of either |
| `SnapshotFiles.MetadataLayout` | memiavl/snapshot.go:462-467 | the metadata are the letters IAVL, the format zero and the version |
| `MemNodes.View` | memiavl/mem_node.go:29-59 | the accessors of a node return the fields of the tree it denotes, in memory or persisted |
| `MemNodes.Mutate` | memiavl/mem_node.go:62-71 | a node at or below the copy-on-write version, or a persisted one, is cloned; a newer one is edited in place; either way it carries the new version, its old fields and no hash |
| `MemNodes.RotateRight` | memiavl/mem_node.go:110-117 | on the heap: the rotated node denotes the rotated tree, editing only nodes the writer owns |
| `MemNodes.RotateLeft` | memiavl/mem_node.go:126-133 | the mirror image |
| `MemNodes.ReBalance` | memiavl/mem_node.go:136-161 | on the heap: single and double rotations give the rebalanced tree, cloning what is not newer than the copy-on-write version |
| `MemNodes.UpdateHeightSize` | memiavl/mem_node.go:90-93 | height and size follow from the children's |
| `MemNodes.NewLeaf` | memiavl/mem_node.go:23-27 | a fresh leaf denoting key, value and version |
| `MemNodes.SetRecursive` | memiavl/node.go:37-90 | on the heap, over in-memory and persisted nodes mixed: the result denotes the value-level set, only owned nodes change, and no ancestor keeps a stale hash |
| `MemNodes.RemoveRecursive` | memiavl/node.go:96-137 | on the heap: the result denotes the value-level removal; for an absent key nothing changes |
| `MemNodes.HashOf` | memiavl/mem_node.go:79-88 | returns the hash of the tree denoted, filling caches and changing nothing else |
| `MemNodes.StillOk` | memiavl/mem_node.go:79-88 | filling hash caches leaves every node valid, in all trees that share it |
| `Trees.Tree.constructor` | memiavl/tree.go:46-68 | an empty tree at a version |
| `Trees.Tree.FromSnapshot` | memiavl/tree.go:71-85 | a tree opened over a snapshot denotes the tree the snapshot was written from |
| `Trees.Tree.Set` | memiavl/tree.go:151-162 | the tree denotes the value-level set of the normalised value; the cache stays coherent |
| `Trees.Tree.Remove` | memiavl/tree.go:164-171 | the tree denotes the value-level removal; the cache stays coherent |
| `Trees.Tree.RootHash` | memiavl/tree.go:198-203 | the hash of the denoted tree, or the empty hash |
| `Trees.Tree.GetWithIndex` | memiavl/tree.go:205-215 | the value stored under the key and the number of smaller keys |
| `Trees.Tree.Get` | memiavl/tree.go:233-254 | the value stored under the key, whether it comes from the cache or from the nodes |
| `Trees.Tree.SaveVersion` | memiavl/tree.go:174-186 | bumps the version and optionally returns the root hash; refuses past the largest signed 64-bit version |
| `Trees.Tree.Copy` | memiavl/tree.go:119-138 | a second tree of the same value; when nothing is uncommitted neither may edit a shared node |
| `Trees.Newest` | memiavl/tree.go:119-123 | no node below a root is newer than the root |
| `Forest.PerformSet` | memiavl/tree.go:151-162 | a set on one of several trees sharing nodes leaves every other tree's value as it was |
| `Forest.PerformRemove` | memiavl/tree.go:164-171 | the same for a removal |
| `Forest.PerformSave` | memiavl/tree.go:174-186 | the same for saving a version, although it fills hash caches of shared nodes |
| `Forest.PerformHash` | memiavl/tree.go:198-203 | the same for reading a root hash |
| `Forest.PerformCopy` | memiavl/tree.go:119-138 | a copy of a committed tree, or of one still as loaded from a snapshot, joins the other trees as an independent value |
| `Forest.RunAll` | memiavl/tree.go:119-186 | copy-on-write isolation over every sequence of sets, removals, saves, hash reads and copies on any of the trees: each tree ends as if it were alone |
| `Forest.UncommittedCopyShares` | memiavl/tree.go:119-138 | the commit boundary is needed: on any tree with an uncommitted root, a copy followed by a new value for any present key changes the copy |
| `Replay.ApplyAll` | memiavl/tree.go:141-186 | a sequence of changes on the heap computes the value-level sequence |
| `Replay.CatchUp` | memiavl/multitree.go:338-357 | a snapshot opened and caught up denotes the value-level result and hashes to it |
| `Replay.ReplayMatches` | memiavl/multitree.go:316-361 | the same changes applied to a live tree and to the tree reloaded from its snapshot give the same version, tree and root hash |
| `Leaves.LeavesAscend` | memiavl/iterator.go:68-107 | the leaves of an ordered tree, left to right, have strictly ascending keys |
| `Leaves.SearchBranch` | memiavl/mem_node.go:163-181 | rank and value of a key come from the child its comparison with the branch key selects |
| `Lookup.BinarySearchCrosses` | memiavl/persisted_node.go:167-197 | the binary search over a leaf window stops where the keys stop being smaller |
| `Lookup.PersistedGetFinds` | memiavl/persisted_node.go:167-197 | the search in a snapshot returns the value of the key and the number of smaller keys |
| `Lookup.PersistedGetByIndexFinds` | memiavl/persisted_node.go:199-216 | a persisted node returns the leaf at an index below its size |
| `Lookup.GetFinds` | memiavl/mem_node.go:163-181 | on mixed trees too, recursion and binary search return the same value and the same rank |
| `Lookup.GetByIndexFinds` | memiavl/mem_node.go:183-199 | on mixed trees, an index below the size gives the leaf at that position |
| `Lookup.LookupsInvert` | memiavl/mem_node.go:163-199 | lookup by index and lookup by key invert each other |
| `Lookup.GetByIndexPastEnd` | memiavl/mem_node.go:183-199 | the index one past the end gives nothing, as the non-membership proof relies on |
| `Lookup.PersistedPastEnd` | memiavl/persisted_node.go:199-216 | the same for a persisted node |
| `Iteration.PrunedRight` | memiavl/iterator.go:87-102 | a right child that is not pushed has no leaf before the end of the range |
| `Iteration.PrunedLeft` | memiavl/iterator.go:87-102 | a left child that is not pushed has no leaf from the start of the range on |
| `Iteration.Iterator.constructor` | memiavl/iterator.go:19-35 | a new iterator holds the first leaf of the range in its direction, or is invalid when there is none |
| `Iteration.Iterator.Next` | memiavl/iterator.go:68-107 | moves to the next leaf of the range, and ends exactly when none is left |
| `Iteration.Collect` | memiavl/iterator.go:19-107 | over nodes in memory or persisted, for all bounds and both directions the walk ends and yields exactly the selected leaves, once each, in order |
| `Iteration.SelectionIsRange` | memiavl/iterator.go:19-107 | the selected leaves are those with start <= key < end, strictly ascending; the descending selection is the mirror image |
| `Exporting.ScanPostOrder` | memiavl/tree.go:266-286 | the stack walk over nodes in memory or persisted emits exactly the post-order of the tree |
| `Exporting.EmitLeaves` | memiavl/snapshot.go:339-357 | before a branch, leaves are emitted until enough subtrees are pending |
| `Exporting.Emits` | memiavl/snapshot.go:335-366 | a subtree's branch records, read in sequence, emit its post-order after the leaves still due before it |
| `Exporting.HeldReadable` | memiavl/snapshot.go:337-360 | every record the reader touches while exporting a written tree is there |
| `Exporting.ExportFiles` | memiavl/snapshot.go:318-367 | reading the files in sequence emits exactly the post-order of the tree they hold, also for no leaf and for one |
| `TreeExport.Export` | memiavl/tree.go:295-311 | exports the snapshot whenever its version is the tree's, and the tree's nodes otherwise |
| `TreeExport.ExportExact` | memiavl/tree.go:295-311 | the stream of a committed tree is that of the tree after some changes exactly when they leave no mark on it |
| `TreeExport.ExportChanged` | memiavl/tree.go:295-311 | a tree opened from a snapshot, changed and exported before it is saved gives its own stream exactly in that case |
| `Importing.PushPostOrder` | memiavl/import.go:168-220 | feeding the post-order of a tree to the stack machine pushes that tree and touches nothing below |
| `Importing.PostOrderInjective` | memiavl/import.go:168-220 | trees with the same stream are the same |
| `Importing.StreamIsPostOrder` | memiavl/import.go:132-220 | whatever stream the machine accepts is the post-order of its pending trees; with one pending tree, of one full binary tree |
| `Importing.Importer.AddLeaf` | memiavl/import.go:173-188 | a leaf writes one leaf record and becomes pending |
| `Importing.Importer.AddBranch` | memiavl/import.go:190-219 | a branch joins the two topmost pending trees and writes the branch record their recursive writer would |
| `Importing.Importer.Add` | memiavl/import.go:168-220 | succeeds exactly when the machine on trees does; a negative version is refused and changes nothing |
| `Importing.Import` | memiavl/import.go:132-157 | the import yields files exactly for streams that end with at most one pending tree, and they are that tree's files |
| `Importing.ImportsExport` | memiavl/import.go:132-220 | the stream of a tree imports to the records of the tree's own snapshot |
| `Importing.FitsExport` | memiavl/tree.go:303-308 | a balanced, stamped tree below 256 levels can be exported without losing a height or a version |
| `Importing.ExportImport` | memiavl/import.go:132-220 | exporting a snapshot and importing the stream rebuilds the snapshot, record for record |
| `NodeProofs.PathToLeaf` | memiavl/proof.go:156-194 | over nodes in memory or persisted, the search path ends at a leaf of the tree, finds the key exactly when it is there, and climbing back along it gives the root hash |
| `Proofs.ConvertInnerOps` | memiavl/proof.go:111-148 | the converted path, leaf first, folds a child hash to the hash climbing gives |
| `Proofs.InnerHashes` | memiavl/proof.go:124-146 | one inner operation hashes the bytes of its node, the length byte included |
| `Proofs.LeafHashes` | memiavl/proof.go:96-108 | the leaf operation hashes the bytes of its leaf |
| `NodeProofs.CreateExistenceProof` | memiavl/proof.go:86-94 | for every present key a proof of its value that checks to the root hash byte for byte; for an absent one an error, next to a proof of the leaf reached |
| `NodeProofs.GetNonMembershipProof` | memiavl/proof.go:41-76 | exists exactly for absent keys, names exactly the greatest smaller and the least greater key where they exist, and each neighbour's proof checks to the root hash |
| `Proofs.EveryTreeSigned` | memiavl/proof.go:171-190 | trees with fewer than 2^32 leaves meet the signed-byte height cast of the path nodes |
| `MultiTrees.MultiTree.Reindex` | memiavl/multitree.go:234-241 | rebuilds the name index and succeeds exactly when no name occurs twice |
| `MultiTrees.WalIndexWraps` | memiavl/multitree.go:433-438 | the log index of a version is the 64-bit difference to the initial one, wrapping below it |
| `MultiTrees.MultiTree.ApplyUpgrades` | memiavl/multitree.go:197-244 | deletes with swap, renames and adds, sorts, reindexes: fails exactly on an unknown or doubled name, stays sorted and indexed otherwise, and on failure holds what was done up to there |
| `MultiTrees.MultiTree.ApplyChangeSets` | memiavl/multitree.go:247-264 | applies the change sets in order; fails exactly on an unknown store, with those before it applied |
| `MultiTrees.MultiTree.ApplyWalEntry` | memiavl/multitree.go:189-194 | upgrades first, then change sets |
| `MultiTrees.MultiTree.SaveVersion` | memiavl/multitree.go:273-289 | saves every tree and the commit info, or clears it; fails when a version cannot grow |
| `MultiTrees.MultiTree.UpdateCommitInfo` | memiavl/multitree.go:291-313 | name, version and root hash of every tree, in order |
| `MultiTrees.MultiTree.CatchupWal` | memiavl/multitree.go:316-361 | replays exactly the entries from the next version to the target or the end of the log; nothing to do, a target that lies behind and an unreadable entry as in the source |
| `MultiTrees.EntryAscends` | memiavl/multitree.go:189-244 | replaying an entry keeps the trees strictly ordered by name |
| `PendingLog.MergeInto` | memiavl/db.go:394-411 | pairs join the first change set of their store, or start one in name order |
| `PendingLog.MergeExact` | memiavl/db.go:385-414 | whatever pairs follow, replaying the merged log gives the live trees exactly when the log holds no pairs for the store behind its first change set |
| `PendingLog.LatePairOvertakes` | memiavl/db.go:394-411 | otherwise the opposite of the last late pair is overtaken by it at replay, and the trees differ |
| `PendingLog.MergeLogsOnce` | memiavl/db.go:394-411 | merging leaves every store that was logged once logged once |
| `PendingLog.ChangesByStore` | memiavl/multitree.go:247-264 | change sets go through exactly on known stores, and each store runs exactly the pairs logged under its name |
| `PendingLog.MergeReplays` | memiavl/db.go:385-414 | replaying the merged log is applying the pairs to the live trees |
| `PendingLog.MergeAllReplays` | memiavl/db.go:345-370 | change sets handed over in several calls replay as they were applied |
| `UpgradeLayers.UpgradedInLayers` | memiavl/multitree.go:197-244 | upgrades that share no name on the way, then additions and renamings in which a new store may carry an old one's name: they go through exactly when no store named is unknown and no name is left twice, and leave the old stores under their new names next to the added ones |
| `UpgradeLayers.NewStoreTakesName` | memiavl/rootmulti/store.go:363-374 | adding a store under the name of an old one and then renaming the old one leaves both |
| `PendingLog.UpgradesReplay` | memiavl/db.go:327-341 | upgrades applied live in two calls replay as one list, when they share no name on the way |
| `UpgradeOrder.SplitExact` | memiavl/multitree.go:197-244 | upgrades applied live in two calls, sorted after each, replay as one list for every second call exactly when the first left the trees in name order, or left only new trees behind the first |
| `UpgradeOrder.Distinguish` | memiavl/multitree.go:205-229 | any two arrangements of the same trees, but for new trees alone, are told apart by some list of upgrades |
| `UpgradeOrder.TwinsStay` | memiavl/multitree.go:205-229 | arrangements that differ in new trees only stay alike under every list of upgrades |
| `PendingLog.SharedNameDiverges` | memiavl/db.go:327-341 | without that condition they can diverge: a committed, well-formed multi-tree and two lists of upgrades whose live and replayed results differ |
| `Durability.CollectBatch` | memiavl/db.go:1156-1168 | the writer's loop takes every entry the log does not have, once, in the order of the batch, and no other |
| `Durability.SeekSnapshot` | memiavl/db.go:963-987 | the newest snapshot not newer than the target, or none when all are newer |
| `Recovery.VersionsCount` | memiavl/multitree.go:425-446 | versions count blocks from the initial version on, and the log index of a version is its block number |
| `Recovery.VersionsStart` | memiavl/multitree.go:433-446 | the first block has the initial version, or 1 without one, and each block the next version |
| `Recovery.InitOk` | memiavl/db.go:1024-1035 | an empty database meets the invariant |
| `Recovery.UpgradesKeep` | memiavl/db.go:327-341 | upgrades keep the pending entry replaying to the live trees: any list as the first call of a block, a later one if the trees are settled or no names are shared |
| `Recovery.UpgradesContinue` | memiavl/db.go:327-341 | the upgrades of a block as one list lead from the last version to the live trees |
| `Recovery.ChangeSetsKeep` | memiavl/db.go:345-370 | change sets keep it too |
| `Recovery.ChangeSetKeeps` | memiavl/db.go:374-414 | and so does one change set |
| `Histories.ChangesReachStores` | memiavl/db.go:345-370 | change sets reach the live trees at once, store by store, exactly when every store they touch is known |
| `Histories.UpgradesReachStores` | memiavl/db.go:327-341 | upgrades reach the live trees at once, deleting, renaming and adding stores as their list says, exactly when no store they name is unknown and no name is left twice |
| `Histories.ChangeReachesStore` | memiavl/db.go:374-414 | one change set reaches its store alone, exactly when the store is known |
| `Recovery.CommitKeeps` | memiavl/db.go:574-622 | a commit extends the history by the pending entry, queues it at its log index, moves to the next version and leaves the live trees the committed ones |
| `Recovery.WriteKeeps` | memiavl/db.go:624-662 | a batch of the asynchronous writer appends the next stretch of the history to the log |
| `Recovery.WriterNeverFails` | memiavl/db.go:639-656 | the writer never meets an index out of order |
| `Recovery.StartKeeps` | memiavl/db.go:783-796 | a rewrite begun at a commit boundary copies a committed version |
| `Recovery.RenameKeeps` | memiavl/db.go:709-724 | publishing the directory adds a genuine snapshot, or fails on an existing one |
| `Recovery.LinkKeeps` | memiavl/db.go:1039-1046 | moving the current link keeps the invariant |
| `Recovery.OpenKeeps` | memiavl/db.go:808-812 | loading the new snapshot gives trees at a committed version, and a catch-up to the end of the log begins exactly when the log goes on behind them |
| `Recovery.FinishKeeps` | memiavl/db.go:814-824 | the catch-up ends when it has passed its aim, with rebuilt commit info |
| `Recovery.ReplayKeepsInv` | memiavl/db.go:814-818 | each entry of the best-effort catch-up leads to the next committed version |
| `Recovery.ReplayNeverFails` | memiavl/db.go:814-818 | the best-effort catch-up always finds its next entry, whatever the writer and the pruner do meanwhile |
| `Recovery.CommittedWhenDrained` | memiavl/db.go:437-446 | the log has caught up with the live trees exactly when the writer's queue is empty |
| `Recovery.InvisibleSwitch` | memiavl/db.go:449-500 | the switch goes through exactly when the rewrite is done and the queue is empty, also while an earlier pruning is under way, and changes nothing but the bookkeeping of rewrite and pruning |
| `Histories.SwitchInEveryRun` | memiavl/db.go:744-825 | in every interleaving of commits, writer batches, rewrites, pruning, restarts and rollbacks the switch keeps version, trees, commit info, pending block, snapshots and log |
| `Progress.EveryRunSettles` | memiavl/db.go:449-570 | from every state a run reaches, background steps alone lead to one where the log has taken every block, the rewrite has been switched to, and no pruning, not even one left over, is under way or waiting, with the history and the block under way as they were |
| `Progress.CommitGoesThrough` | memiavl/db.go:574-620 | in every run a commit goes through exactly up to the largest signed 64-bit version |
| `Recovery.ListKeeps` | memiavl/db.go:510-518 | listing keeps the invariant, also when the link has moved on from what pruning read |
| `Recovery.PruneKeeps` | memiavl/db.go:517-554 | visiting one snapshot directory keeps the invariant, removed or locked |
| `Recovery.StrayKeeps` | memiavl/db.go:503-571 | a pruning that outlives its database keeps the invariant while it goes on removing snapshots |
| `Recovery.StrayLinkKeeps` | memiavl/db.go:503-514 | so does one that has begun but reads the link only after its database was closed |
| `Histories.PruneKeepsRecent` | memiavl/db.go:515-554 | from anywhere in its list, with no snapshot locked, pruning keeps what it does not visit any more, the snapshots from the one it saw as current on, and as many before it as it still may |
| `Histories.PruningExact` | memiavl/db.go:500-570 | a whole pruning said of the database it starts from: a snapshot stays exactly when it is not older than the current one or fewer than the configured number lie between the two, and the log is cut right behind the oldest that stays |
| `Recovery.TruncateKeeps` | memiavl/db.go:558-569 | cutting the log keeps every entry that a kept snapshot needs |
| `Histories.TruncateExact` | memiavl/db.go:566-569 | the log is cut right behind the earliest snapshot kept, as far as its entries go |
| `Recovery.GapFree` | memiavl/db.go:503-571 | every entry after a kept snapshot up to the end of the log is there and is the block committed at that index |
| `Recovery.LoadsTarget` | memiavl/db.go:185-210 | loading a target at or after a kept snapshot gives the trees and commit info committed at that version, or at the end of the log when it ends earlier |
| `Recovery.LoadsLatest` | memiavl/db.go:185-210 | loading without a target, at any moment, gives the newer of the current snapshot and the end of the log |
| `Recovery.ReopenKeeps` | memiavl/db.go:827-853 | closing, without waiting for pruning, and reopening gives the last committed trees |
| `Recovery.RollbackKeeps` | memiavl/db.go:212-247 | loading for overwriting leaves history, snapshots, log, trees and commit info as of the target, when every pruning left over spares the snapshot it starts from |
| `Recovery.RelinkKeeps` | memiavl/db.go:212-224 | interrupted after the link has moved, it has changed nothing: the whole history is loaded |
| `Rollbacks.RelinkExact` | memiavl/db.go:212-228 | such an interruption leaves a database that loads exactly when the log still has every entry after the snapshot |
| `Rollbacks.StrayLeaves` | memiavl/db.go:515-554 | a pruning left over leaves exactly the snapshots it does not visit any more, those not older than the current one it saw, and as many recent ones as it may keep |
| `Rollbacks.StrayKeepsRecent` | memiavl/db.go:500-554 | a pruning left over that reads the link and lists the snapshots of the database as it is keeps exactly the recent ones of it |
| `Rollbacks.ReopenedIdle` | memiavl/db.go:158-277 | a database opened again has nothing queued, pending, being rewritten or pruned of its own; the prunings of the one closed go on as far as they had come, and a process that stops takes them with it |
| `Rollbacks.RollbackExact` | memiavl/db.go:503-571 | after a rollback and the end of a pruning left over the current snapshot is there, and the database loads, exactly when the pruning spares it |
| `Rollbacks.RollbackListExact` | memiavl/db.go:510-518 | for a pruning that lists the snapshots after the rollback: exactly when the rollback does not go behind the link it read, or recent snapshots are kept |
| `Rollbacks.RollbackLosesCurrent` | memiavl/db.go:503-571 | a history from the empty database in which a rollback loses its snapshot and nothing can be loaded |
| `Rollbacks.LeftSnapshotLoads` | memiavl/db.go:231-246 | a snapshot after the target whose removal failed loads as the version that was rolled back |
| `Rollbacks.LeftSnapshotHarmless` | memiavl/db.go:231-246 | it is the committed version of a later history exactly when that history has the same trees there |
| `Rollbacks.SameInfoHarmless` | memiavl/db.go:231-246 | equal commit info at its version makes it harmless, or gives a collision of the digest function |
| `InfoBinding.InfosBind` | memiavl/multitree.go:289-313 | two lists of well-formed trees with one commit info are the same, or give a collision |
| `Recovery.CrashExact` | memiavl/db.go:624-662 | a restart without closing keeps the database sound exactly when the log had reached every snapshot on disk |
| `Crashes.SnapshotAheadOfLog` | memiavl/db.go:772-796 | a history in which a snapshot is published, and then linked, ahead of the log |
| `Crashes.WriterAfterCrash` | memiavl/db.go:624-662 | after a crash the writer accepts the next block exactly when the log had reached the current snapshot |
| `Crashes.StraySnapshotLoads` | memiavl/db.go:185-210 | a snapshot beyond what the restart reached still loads, as a version the history no longer has |
| `Histories.EveryRun` | memiavl/db.go:158-825 | every sequence of legal steps from an empty database keeps the invariant |
| `Histories.CommittedTreesSound` | memiavl/multitree.go:197-289 | in every committed state every tree is a balanced, ordered, stamped search tree whose own version is the version of the whole, with no node newer than it |
| `Histories.LiveTreesSound` | memiavl/db.go:327-414 | after every sequence of legal steps the live trees are well formed too, inside a block as well |
| `Histories.BoundaryIsCommitted` | memiavl/db.go:619-619 | a rewrite begun at a commit boundary copies trees that meet the condition of isolated copies |
| `Histories.RecoverInEveryRun` | memiavl/db.go:503-571 | after every sequence of legal steps each version from a kept snapshot to the last log entry loads as it was committed |
| `MidBlock.MidBlockRewrite` | memiavl/db.go:772-796 | a rewrite begun inside a block publishes the unfinished block under the last version and loading returns it; it is the committed version exactly when the block is quiescent |
| `MidBlock.QuiescentExact` | memiavl/multitree.go:189-195 | a block leaves the committed trees as they were exactly when its upgrades do and none of its pairs leaves a mark |
| `Marks.UnmarkedExact` | memiavl/node.go:37-137 | a store with several leaves stays as it was exactly when every pair deletes a key it did not have; a smaller one when every key touched was absent and is deleted in the end |
| `Marks.CommittedAfter` | memiavl/node.go:37-137 | a tree that carries no new stamp after some pairs is the tree that was there, or has fewer leaves |
| `Marks.KeyAfter` | memiavl/tree.go:141-172 | after some pairs a key holds what its last pair says, stamped with the next version, or what it held before |
| `MidBlock.MidBlockExample` | memiavl/db.go:772-796 | a history from the empty database in which the block has changed the trees |
| `MidBlock.UpgradesQuiescent` | memiavl/multitree.go:197-244 | upgrades that share no name on the way leave the trees alone exactly when deleting, renaming and adding as the list says ends with the stores there were |
| `QueryCache.CacheLimit` | memiavl/rootmulti/query_cache.go:203-220 | the query limit plus one when it is in range, otherwise the snapshot interval plus one, or 1001 without an interval |
| `QueryCache.Cache.Search` | memiavl/rootmulti/query_cache.go:172-174 | the first listed version not below the given one |
| `QueryCache.Cache.InsertVersion` | memiavl/rootmulti/query_cache.go:159-182 | the version is inserted in order, once |
| `QueryCache.Cache.PruneHistoricalTrees` | memiavl/rootmulti/query_cache.go:184-201 | the newest versions remain, as many as the limit allows, and their entries with them |
| `QueryCache.Cache.AddHistoricalVersion` | memiavl/rootmulti/query_cache.go:102-121 | afterwards the cache holds the window of everything added since the last reset, with the trees first added, and its latest version |
| `QueryCache.Cache.GetHistoricalTrees` | memiavl/rootmulti/query_cache.go:88-100 | an added version is served exactly while fewer than the limit newer ones were added, or while the exporter holds it; the latest always is |
| `QueryCache.Cache.SetSnapshotExporter` | memiavl/rootmulti/query_cache.go:124-143 | refused for a version that is not positive or while one is set |
| `QueryCache.Cache.PurgeSnapshotExporter` | memiavl/rootmulti/query_cache.go:146-157 | drops the exporter of exactly that version |
| `QueryCache.Cache.Reset` | memiavl/rootmulti/query_cache.go:40-59 | nothing added, nothing held |
| `QueryCache.InWindowIff` | memiavl/rootmulti/query_cache.go:159-201 | an added version is in the window exactly while fewer than the limit newer ones were added |
| `QueryCache.WindowUnique` | memiavl/rootmulti/query_cache.go:159-201 | the window is determined by the set of versions added |
| `QueryCache.LatestStaysServed` | memiavl/rootmulti/store.go:106-136 | a version once seen as the latest stays served until the limit of newer ones has been added |
| `QueryCache.BackfillIsServed` | memiavl/rootmulti/store.go:407-428 | nothing is backfilled in vain: every version from the start of the backfill on stays in the window while the latest is the newest |
| `QueryCache.BackfillWindow` | memiavl/rootmulti/store.go:415-428 | a version is backfilled exactly when it is positive, among the last ones that the window holds, and with an initial height not before the one below it |
| `QueryCache.MissesAreClassified` | memiavl/rootmulti/store.go:682-691 | a miss is called not published exactly above the latest version, and not ready exactly for one of the last versions that the window holds: one never added, which would be served as soon as it is; one that left the window is called not found |
| `QueryCache.Run` | memiavl/rootmulti/store.go:407-458 | however commits, backfill and resets interleave, the cache ends with the window of what was added since the last reset |
| `HistoricalQueries.Serve` | memiavl/rootmulti/store.go:407-458 | in every interleaving of commits, backfill, restarts and the database's own work a version served is the one committed, and versions in the window are served |
| `HistoricalQueries.PublishExact` | memiavl/rootmulti/store.go:376-402 | what is added for the last version is the committed one exactly when the block under way, upgrades on loading included, has left no mark |
| `HistoricalQueries.PublishedIsNewest` | memiavl/rootmulti/store.go:106-136 | what a commit has published is in the cache, and nothing newer is |
| `HistoricalQueries.LoadsCommitted` | memiavl/rootmulti/store.go:430-446 | a backfill load that succeeds gives the trees committed at its version |
| `HistoricalQueries.StartCommitted` | memiavl/rootmulti/store.go:416-435 | the backfill starts at a committed version, or finds nothing to load |
| `HistoricalQueries.BackfillStarts` | memiavl/rootmulti/store.go:430-446 | the first load of a backfill succeeds whenever a kept snapshot is not newer than its version and that version was committed |
| `HistoricalQueries.LoadNextKeeps` | memiavl/rootmulti/store.go:449-455 | each further version it adds is the committed one |
| `HistoricalQueries.LoadNextExact` | memiavl/rootmulti/store.go:449-455 | it goes on exactly while its next entry has not been cut from the log |
| `HistoricalQueries.BackfillCovers` | memiavl/rootmulti/store.go:407-458 | in every interleaving a backfill that has come to its end has added every version of its window below the one the database was opened at, as committed |
| `DeltaEncoding.DiffOffset` | versiondb/extsort/delta_encoding.go:75-89 | the length of the longest common prefix |
| `DeltaEncoding.KeyRoundTrip` | versiondb/extsort/delta_encoding.go:17-67 | a key encoded against the last one is decoded against it, leaving what follows |
| `DeltaEncoding.KeyCut` | versiondb/extsort/delta_encoding.go:47-67 | a key that is cut off reads as an unexpected end of file, and as a plain one only where one of its lengths or its bytes would begin |
| `DeltaEncoding.DeltaEncoder.Write` | versiondb/extsort/delta_encoding.go:17-36 | appends the encoding of the key against the last one and remembers the key |
| `DeltaEncoding.DeltaReader.Next` | versiondb/extsort/sort.go:171-179 | yields the keys a file was written from, one by one, then the end, and never fails on such a file |
| `DeltaEncoding.WriteKeys` | versiondb/extsort/sort.go:233-239 | the file of a chunk is the encoding of its keys in order |
| `MergeHeap.MultiWayMerge.Down` | versiondb/extsort/merge.go:44-51 | sifting down restores the heap below a position and only permutes the streams |
| `MergeHeap.MultiWayMerge.Heapify` | versiondb/extsort/merge.go:34-35 | the streams form a heap, with the same items |
| `MergeHeap.MultiWayMerge.constructor` | versiondb/extsort/merge.go:17-36 | opens exactly the non-empty streams |
| `MergeHeap.MultiWayMerge.Next` | versiondb/extsort/merge.go:68-83 | returns an item that no remaining one belongs before and takes exactly it out of the streams; ends when none is left |
| `MergeHeap.MergeAll` | versiondb/extsort/merge.go:17-83 | for every strict weak order, streams in order merge into all their items in order |
| `ExtSort.SortSlice` | versiondb/extsort/sort.go:222-224 | the items of a chunk, in order |
| `ExtSort.ExtSorter.Feed` | versiondb/extsort/sort.go:104-116 | takes an item shorter than 2^32 bytes and refuses a longer one; a chunk goes to the background with the item that brings it to the chunk size, counting four bytes more for each, so that less than that is held back |
| `ExtSort.ExtSorter.SortChunkAndRotate` | versiondb/extsort/sort.go:119-145 | hands the current chunk to the background without losing an item |
| `ExtSort.ExtSorter.CompleteChunk` | versiondb/extsort/sort.go:220-253 | a background job turns its chunk into a file that holds the chunk in order |
| `ExtSort.ExtSorter.Finalize` | versiondb/extsort/sort.go:148-202 | all items fed, in order, whatever the order in which the jobs end |
| `ExtSort.ExternalSort` | versiondb/extsort/sort.go:66-101 | for every strict weak order, every chunk size and every interleaving, the output is a sorted permutation of the items fed |
| `SorterItems.EncodeSorterItem` | client/changeset/convert_to_sst.go:209-237 | the buffer is filled exactly with key, version, flag, value and key length |
| `SorterItems.ItemRoundTrip` | client/changeset/convert_to_sst.go:242-263 | decoding an item gives its version bytes and its pair, a deletion without value |
| `SorterItems.ItemLessIsStrictWeak` | client/changeset/convert_to_sst.go:266-281 | the item order is a strict weak order, as the external sorter needs |
| `SorterItems.OrdersAgree` | versiondb/tsrocksdb/comparator.go:21-59 | the two orders, written apart, are the one meant: an item sorts before another, and the timestamp comparator puts its prefixed key first, exactly when its key is less, or the same with a newer version |
| `SorterItems.SplitFiles` | client/changeset/convert_to_sst.go:146-171 | the files together are the stream, no key is in two of them, and a file ends exactly at the first change of key after it has grown large enough |
| `TableFiles.ConvertStore` | client/changeset/convert_to_sst.go:85-173 | end to end: the tables hold exactly one entry for every change taken, under the store's prefix and with its version, in the order of the timestamp comparator, which is by user key with the newest version of each first; no user key is in two tables, and tables are cut at the size limit |
| `TableFiles.EntryOfItem` | client/changeset/convert_to_sst.go:146-169 | an item decodes to the entry of its change: user key and version are those of the change under the prefix, and there is no value for a deletion |
| `TableFiles.EntriesInOrder` | versiondb/tsrocksdb/comparator.go:21-59 | items in the sorter's order become entries in the comparator's order: by user key, the newest version first |
| `ChangeSets.SizeIsExact` | client/changeset/changeset.go:111-142 | the buffer size computed for a pair is the number of bytes written |
| `ChangeSets.PairLayout` | client/changeset/changeset.go:125-142 | a flag byte, one for a deletion, then length and bytes of the key, and of the value if it is none |
| `ChangeSets.PairRoundTrip` | client/changeset/changeset.go:125-192 | a pair reads back, a deletion without value, leaving what follows |
| `ChangeSets.WriteChangeSet` | client/changeset/changeset.go:43-68 | appends version, payload size and the pairs in order |
| `ChangeSets.VersionLayout` | client/changeset/changeset.go:55-66 | eight bytes of the version, eight of the payload length, and the payload |
| `ChangeSets.ReadChangeSet` | client/changeset/changeset.go:74-106 | parses or skips one version, with the source's errors for a short file and an overrun payload |
| `ChangeSets.VersionRoundTrip` | client/changeset/changeset.go:43-106 | a written version is read back with its pairs, or skipped over the same number of bytes |
| `ChangeSets.Iterate` | client/changeset/changeset.go:235-303 | the loop of both iterators: blocks seen, offset reached, and the error other than a plain end of file |
| `ChangeSets.FileRoundTrip` | client/changeset/changeset.go:235-303 | a file of any written versions is read back whole, and the skipping reader visits the same versions at the same offsets |
| `ChangeSets.FileCutOff` | client/changeset/changeset.go:235-303 | a file cut off anywhere: both iterators see exactly the versions that are whole and stop at the offset behind them; the rest is reported as an error exactly unless the cut is at the end of a version, before a flag, length, key or value of the next, or behind its header when payloads are skipped |

## Left out

- Generated protobuf code: log entries are values; an empty and a missing value are told apart and normalised as in the source.
- File system, memory mapping, file locks, symlinks, syncing, worker pools and cancellation: publishing and removing a directory, moving the link and appending a batch are atomic steps.
- Native-endian layout: only the little-endian layout is modelled.
- RocksDB, its iterators and table writer, compression, and the thin wrappers around them: the size a table writer reports is a parameter.
- Commands, configuration, telemetry and metrics.
- Tail truncation of a corrupted log file.
- Restoring a state-sync snapshot next to an older log, or into a fresh directory: histories start from an empty database, whose log starts at index 1.
- Changing the initial version of a database, and commits after loading an older version without overwriting.
- Versions past 2^63 - 1: a commit that would pass it is refused in the model; the source refuses it only when there is a tree.
- Early stop of a post-order scan: the source ignores the callback's answer.
- Storing chunks without delta encoding, and snappy compression of chunks.
- The checks an ICS 23 verifier makes besides hashing, such as refusing empty keys and values.
- MultiTrees.MultiTree.ApplyUpgrades: the trees in a multi-tree are values, as the heap trees are shown to behave.
- MultiTrees.MultiTree.ApplyChangeSets: as above; that the pending log shares change-set objects with its caller is not modelled.
- PendingLog.UpgradesReplay: for two given lists, sharing no name on the way is sufficient; the exact condition, UpgradeOrder.SplitExact, is on the first list and for every second one.
- UpgradeLayers.UpgradedInLayers: lists in which two stores that were both there, or both added, share a name on the way, or a deletion follows an addition that shares one, are not described by name; what they do is decided by position.
- Recovery.UpgradesContinue: a later call in a block on trees that are neither settled nor free of shared names is not covered, since it can replay differently.
- Histories.EveryRun: snapshots that pruning could not remove because an exporter holds their lock are not counted as kept, and no claim about the log covers them. Runs that go on after a rollback that left a snapshot behind are not covered; what such a snapshot does is LeftSnapshotLoads and LeftSnapshotHarmless.
- Histories.SwitchInEveryRun: the mutex is not modelled; steps may also happen at moments at which it would not let them, such as commits while a pruning is waited for.
- Recovery.RollbackKeeps: rollbacks that a pruning left over does not spare are not covered, since they can lose their snapshot. For a pruning that has read the link but not listed the snapshots, the condition also allows for every snapshot that may still be published, and is sufficient only. The process may also stop when such a pruning reaches the closed log.
- Trees.Tree.AddToCache: which entry a full cache evicts is left open.
- Trees.Tree.Get: for trees with fewer than 2^32 leaves, as GetWithIndex.
- Trees.Tree.GetWithIndex: for trees with fewer than 2^32 leaves, which is what 32-bit leaf indices can address.
- Lookup.GetFinds: the same bound on the number of leaves of persisted subtrees.
- Lookup.GetByIndexFinds: the same bound.
- Lookup.LookupsInvert: the same bound.
- NodeProofs.GetNonMembershipProof: for trees with fewer than 2^32 leaves, as for the lookups.
- NodeProofs.CreateExistenceProof: a proof for a key of an empty tree stops the code with a nil node and is not modelled.
- Importing.Importer.AddBranch: files with 2^32 or more leaves are excluded.
- Importing.Import: streams with 2^32 or more leaves are excluded.
- Importing.Importer.Add: streams with 2^32 or more leaves are excluded; a branch with fewer than two pending trees, which indexes below the stack in the source, is an error result.
- DeltaEncoding.DeltaReader.Next: a shared length beyond the last key, which stops the source with a slice error, is an error result.
- SorterItems.ItemLessIsStrictWeak: on byte strings that are not items, where the source would stop with a slice error, the order reads an empty key or version zero.
- TableFiles.ConvertStore: an item of 2^32 bytes or more, which stops the source, is left out of the tables.
- ExtSort.ExtSorter.Finalize: chunk files are read to their end before merging, where the source reads them item by item.
- The foreground rewrite of a snapshot, reloading without catching up, and removing snapshots before a height.
- Callbacks that stop an iteration over a change-set file early.
- The order of publishing in the root multi-store's commit beyond the cache.
