# Nanograph storage engines in Dafny

A model of the storage core of nanograph and proofs of what it promises: the B+Tree with its write-ahead
log, iterator and prefix scan, the multi-version (MVCC) transactions on top of it, and the Adaptive Radix
Tree (ART) with its iterator.  `dafny verify dfyconfig.toml` checks everything.

## What is modelled

**B+Tree.**  `BTree.BPlusTree` is the tree as the program has it: a table from node ids to nodes that
insert, split, borrow and merge rewrite in place.  Ghost state gives every node the key region it is
responsible for and its height, and the map the tree stands for.  Byte-string order is embedded into the
reals (`Bytes.Rank`), so that region arguments are linear arithmetic.  The invariant (`BTreeContents.Good`)
says that the table is exactly the set of reachable nodes, parent fields agree with child lists, separators
route every key, all leaves have the same depth, `next` leads to the leaf with the adjacent region,
`leftmost_leaf` is the first one, the stored entries are exactly the map, and nodes are filled as the
configuration asks.  Insert and delete keep it through any cascade of splits, borrows, merges and root
changes, never return an error, and are map update and map removal.  `BTreeOutcome` gives the table after an
insertion or deletion as a function of the table before, which makes whole runs computable: `BTreeGaps` has
two.

**Log and scans.**  `KvStore.Shard` logs operations and applies them; recovery of any prefix of the log
gives the map after that prefix of writes, as long as no key or value in it has 2^32 bytes or more.
`BTreeIterator` and `ScanPrefix` relate scans to ranges of the map, for every configuration.

**MVCC.**  `MvccModel` is a state machine over versions, transactions and a ghost log of applied commits, in
which drawing a commit timestamp and applying the commit are separate steps, so that every interleaving of
concurrent commits is a run.  `MvccSnapshot` adds the manager's calls as single steps with the gc
watermark, and `MvccSlip` says when a commit can land below a snapshot taken before it.  The classes in `Mvcc`
and `MvccManager` are the program's objects.  The manager keeps the calls it has answered, and its state is
the run of those calls.

**ART.**  `ArtNode` and `ArtLayout` hold the four node layouts and every array edit on them, all related to
one function, the child filed under a byte.  `ArtModel` says what a tree stores (a leaf, or a value at the
end of an inner node's path) without reference to how lookups go, and what `get` answers on any tree, rows in
order or not.  `ArtInsert` is insertion and when it leaves the tree in order; `ArtReads` is what every read
answers afterwards, in order or not.  `Art.AdaptiveRadixTree` is the object.  `ArtIter` and `ArtScan` do the
same for the explicit-stack iterator.

## Where the code does not do what it says

The model follows the code.  Each of these has a concrete input and the exact condition.

- Garbage collection is documented to remove only versions no active transaction can see
  (nanograph-btree/src/mvcc.rs:180-187).  It drops the version a reader needs whenever that version is not
  the newest and lies at or below the watermark or beyond the version limit: `MvccSnapshot.GcLosesASnapshot`,
  `MvccSnapshot.GcKeepsReadIff`.
- A transaction that begins between another one's timestamp draw and its apply can see that commit appear:
  `MvccSnapshot.UnquietBeginCanSlip`.  A commit can land below the new snapshot in some continuation if and only
  if a drawn commit would go through at the time of the begin: `MvccSlip.SlipsIff`.  What the snapshot reads for
  a given key can change if and only if one of them would go through with a write of that key:
  `MvccSlip.ReadSlipsIff`.  Where no drawn commit can go through every read is stable:
  `MvccSlip.QuietBeginReadsStable`.
- The iterator is meant to skip empty leaves (nanograph-btree/src/iterator.rs:260-264) but ends at the first
  one.  What a scan returns is the range up to that leaf: `BTreeIterator.Scan`.  On a given tree every scan is
  complete if and only if no empty leaf comes before a non-empty one: `BTreeIterator.ScansSeeAllIff`.  Every
  tree is like that if min_keys is at least 1 and max_keys at least 3: `BTreeChain.SoundHasNoGaps`.  Otherwise
  there is a run that loses entries: with max_keys 2 the keys 4, 3, 2, 1 inserted and 3 deleted leave a scan
  without 4, whatever min_keys is (`BTreeGaps.TwoKeyRun`); with min_keys 0 a first leaf emptied by deletions
  leaves a scan without any entry, whatever max_keys is (`BTreeGaps.NoMinimumRun`).
- The default prefix scan finds exactly the keys under the prefix if and only if the prefix is non-empty and
  does not end in 0xFF: `ScanPrefix.PrefixRangeExact`.
- Log records of keys or values of 2^32 bytes or more do not decode to themselves: `WalRecord.PutRoundTrip`.
- ART insertion panics if and only if the key ends inside a partial key on its way: `ArtInsert.PanicsIff`;
  "a" after "abc" and "abd" does: `ArtRuns.PrefixRun`.
- ART insertion can hide other keys.  Every read after an insertion is right if and only if there is no panic
  and the new leaf hides nothing: `ArtReads.InsertedReads`.  A leaf hides what lies under a byte that binary
  search misses in the row of a grown Node4, or under a byte that leads to the slot the leaf takes in a
  Node48, except where nothing is stored there: `ArtReads.AddedReads`.  Binary search misses a byte if and only
  if the row is not sorted: `ArtNode.SearchFindsAllIff`.  After 2, 1, 3, 4 and 5 the key 2 is gone:
  `ArtRuns.UnsortedRun`.  A packed Node48 of at least 18 children that loses one before its last hides the last
  with the next addition; one of 17 shrinks to a Node16 and hides nothing: `ArtReads.HoleHides`,
  `ArtInsert.HoleFails`.  After 1 to 18, the removal of 3 and 19 the key 18 is gone: `ArtRuns.HoleRun`.  While
  nothing is removed every read is right if and only if the insertion is safe:
  `Art.AdaptiveRadixTree.Insert`, `ArtReads.InsertedStocked`.
- The rows of a Node4 are documented as sorted (nanograph-art/src/node.rs:54-58) and are not, so that an
  iteration need not be ascending: after [2], [1] and [3] it yields them in this order, `ArtRuns.RowRun`.  It is
  ascending if and only if at every node the children with leaves below stand in the order of their bytes:
  `ArtScan.AscendingIff`.
- The ART iterator skips values stored at inner nodes, and only those: `ArtScan.IterationIsContents`,
  `ArtScan.YieldedIsLeaf`.  After [1] and [1, 2] it yields [1, 2] alone: `ArtRuns.SkippedRun`.

## Model

| member | source | states |
|---|---|---|
| `BTree.BPlusTree.constructor` | nanograph-btree/src/tree.rs:66-82 | a new tree stands for the empty map and is one empty leaf; it satisfies the whole invariant for every configuration with at least two keys per node |
| `BTree.BPlusTree.Clear` | nanograph-btree/src/tree.rs:156-177 | the tree is a valid empty tree again |
| `BTree.BPlusTree.GetNode` | nanograph-btree/src/tree.rs:187-196 | an error exactly for ids that are not in the table |
| `BTree.BPlusTree.Get` | nanograph-btree/src/tree.rs:214-225 | never an error; returns the binding of the map, or nothing |
| `BTree.BPlusTree.FindLeaf` | nanograph-btree/src/tree.rs:228-241 | an error exactly for ids that are not in the table; else the leaf reached by following the key down from there, which is the one whose region holds the key if the start holds it |
| `BTree.BPlusTree.Insert` | nanograph-btree/src/tree.rs:250-271 | never an error; the invariant holds again, the map is updated at the key only, and the new table is a function of the old one |
| `BTree.BPlusTree.SplitLeaf` | nanograph-btree/src/tree.rs:274-293 | storing an overfull leaf as two restores the invariant, leaf chain and separators included, with the same map |
| `BTree.BPlusTree.PropagateSplit` | nanograph-btree/src/tree.rs:284-292 | with both halves stored, the separator goes to the parent or to a new root and the invariant holds again |
| `BTree.BPlusTree.InsertIntoParent` | nanograph-btree/src/tree.rs:296-315 | adding the separator restores the invariant with the same map, however far splits go on upwards |
| `BTree.BPlusTree.SplitInternal` | nanograph-btree/src/tree.rs:318-344 | storing an overfull internal node as two restores the invariant, parent fields of the moved children included, with the same map |
| `BTree.BPlusTree.ReparentChildren` | nanograph-btree/src/tree.rs:323-327 | the loop points every listed child at its new parent and touches nothing else |
| `BTree.BPlusTree.CreateNewRoot` | nanograph-btree/src/tree.rs:347-377 | hanging the split root below a new one restores the invariant, all leaves at one depth again, with the same map |
| `BTree.BPlusTree.Delete` | nanograph-btree/src/tree.rs:381-407 | never an error; returns whether the key was there, removes exactly it and restores the invariant |
| `BTree.BPlusTree.HandleUnderflow` | nanograph-btree/src/tree.rs:410-444 | a node short of keys takes one from the left sibling if it can spare one, else from the right one, else is merged into the left or absorbs the right; terminates up the tree and leaves the map as it was |
| `BTree.BPlusTree.UpdateSeparatorKey` | nanograph-btree/src/tree.rs:489-530 | replaces the one key that separates the two siblings |
| `BTree.BPlusTree.BorrowFromLeft` | nanograph-btree/src/tree.rs:533-598 | moving one entry or child from the left sibling restores the invariant with the same map |
| `BTree.BPlusTree.BorrowFromRight` | nanograph-btree/src/tree.rs:601-669 | moving one entry or child from the right sibling restores the invariant with the same map |
| `BTree.BPlusTree.MergeWithLeft` | nanograph-btree/src/tree.rs:672-736 | merging into the left sibling restores the invariant, table, chain and the ancestors included, with the same map |
| `BTree.BPlusTree.MergeWithRight` | nanograph-btree/src/tree.rs:739-803 | merging the right sibling in restores the invariant, table, chain and the ancestors included, with the same map |
| `BTree.BPlusTree.RemoveFromParent` | nanograph-btree/src/tree.rs:806-846 | dropping the absorbed child restores the invariant with the same map, whether the root collapses or the shortage goes on upwards |
| `BTree.BPlusTree.GetLeftmostLeaf` | nanograph-btree/src/tree.rs:849-854 | the leaf whose region starts at the smallest key, although insert and delete never update the field |
| `BTree.BPlusTree.GetLeafEntries` | nanograph-btree/src/tree.rs:857-866 | errors exactly for missing ids and internal nodes; the entries of a leaf are sorted bindings of the map |
| `BTree.BPlusTree.GetNextLeaf` | nanograph-btree/src/tree.rs:869-878 | errors exactly for missing ids and internal nodes; the successor of a leaf is the leaf whose region starts where this one ends, and only the last has none |
| `BTree.BPlusTree.Stats` | nanograph-btree/src/tree.rs:893-935 | the key count is the size of the map, the height is the common leaf depth, and a tree of h >= 2 levels holds at least 2 * min_keys^(h-1) keys |
| `BTreeStats.HeightBound` | nanograph-btree/src/tree.rs:893-935 | the lower bound on the number of keys for every well-filled tree |
| `BTreeNode.Search` | nanograph-btree/src/node.rs:386-389 | the position of a key in sorted keys, or the position at which it belongs |
| `Bytes.LessIff` | nanograph-btree/src/node.rs:386-389 | keys are ordered by the first byte in which they differ, a proper prefix being smaller |
| `BTreeShape.RoutingSlot` | nanograph-btree/src/node.rs:290-296 | the child chosen for a key is the i with keys[i-1] <= key < keys[i] |
| `BTreeShape.ChildForKey` | nanograph-btree/src/node.rs:154-162 | the child chosen has the key inside its region, one level down |
| `BTreeNode.GetEntrySpec` | nanograph-btree/src/node.rs:420-427 | a leaf lookup finds the entry with that key if and only if there is one |
| `BTreeNode.PutEntrySpec` | nanograph-btree/src/node.rs:392-406 | a leaf insert keeps the entries sorted and changes exactly the entry of that key |
| `BTreeNode.DropEntrySpec` | nanograph-btree/src/node.rs:409-417 | a leaf remove keeps the entries sorted and drops exactly the entry of that key |
| `BTreeSplit.LeafSplitReady` | nanograph-btree/src/node.rs:180-204 | the halves of a split leaf partition its region at the new separator and are linked in order |
| `BTreeSplit.InternalSplitReady` | nanograph-btree/src/node.rs:207-227 | the halves of a split internal node partition its region at the promoted key, which stays in neither half |
| `BTreeSplit.SplitInHalf` | nanograph-btree/src/node.rs:310-449 | the halves are the node cut in the middle; an internal node gives its middle key up |
| `BTreeSplit.SplitStep` | nanograph-btree/src/node.rs:299-307 | adding separator and right half to the parent keeps every node linked, routed and at its height |
| `BTreeSplit.RootSplitStep` | nanograph-btree/src/tree.rs:347-377 | the same for a split root |
| `BTreeRebalance.BorrowStep` | nanograph-btree/src/tree.rs:489-669 | shifting the boundary between two siblings keeps every node linked, routed and at its height |
| `BTreeRebalance.MergeStep` | nanograph-btree/src/tree.rs:672-846 | absorbing the right sibling keeps every node linked, routed and at its height, and removes exactly one node |
| `BTreeRebalance.CollapseStep` | nanograph-btree/src/tree.rs:822-836 | the only child of the root can replace it |
| `BTreeSteps.SplitInv` | nanograph-btree/src/tree.rs:274-344 | a split keeps map, leaf chain and occupancy as well as structure |
| `BTreeSteps.MergeGood` | nanograph-btree/src/tree.rs:672-803 | a merge keeps map, leaf chain and occupancy; only the parent may be left short |
| `BTreeSteps.CollapseGood` | nanograph-btree/src/tree.rs:822-836 | collapsing the root keeps map, leaf chain and occupancy |
| `BTreeShape.EveryNodeReachable` | nanograph-btree/src/tree.rs:187-241 | every node of the table hangs below the root, at the depth its height says |
| `BTreeShape.DescentStays` | nanograph-btree/src/tree.rs:228-241 | every way down from the root stays in the table, and all leaves lie at one depth |
| `BTreeShape.Disjoint` | nanograph-btree/src/tree.rs:228-241 | two leaves never share a key region, so a key has one home |
| `BTreeContents.LeafDecides` | nanograph-btree/src/tree.rs:214-225 | the leaf whose region holds a key decides whether the map has it |
| `BTreeChain.ChainVisitsEveryLeafOnce` | nanograph-btree/src/tree.rs:849-878 | following next from the leftmost leaf visits every leaf of the table exactly once |
| `BTreeChain.ChainIsContents` | nanograph-btree/src/tree.rs:849-878 | the entries of all leaves along the chain, one leaf after the other, are the map, strictly ascending |
| `BTreeChain.SoundHasNoGaps` | nanograph-btree/src/tree.rs:398-438 | with at least one key per node and at least three allowed, an empty leaf is the only node of the tree, so none comes before a non-empty one |
| `BTreeChain.ChainVisible` | nanograph-btree/src/iterator.rs:209-290 | reading on from a leaf meets exactly the stored entries that no empty leaf stands in front of |
| `BTreeChain.ReadsAllIff` | nanograph-btree/src/iterator.rs:209-290 | reading from the leftmost leaf gives the whole map if and only if no empty leaf comes before a non-empty one |
| `BTreeIterator.ScansSeeAllIff` | nanograph-btree/src/iterator.rs:209-290 | scans with all bounds are complete if and only if no empty leaf comes before a non-empty one |
| `BTreeGaps.TwoKeyRun` | nanograph-btree/src/iterator.rs:260-264 | four insertions and a deletion with max_keys 2, after which a full scan returns two of three entries |
| `BTreeGaps.NoMinimumRun` | nanograph-btree/src/iterator.rs:223-226 | a run with min_keys 0 and any max_keys, after which a full scan returns nothing from a tree that is not empty |
| `BTreeOutcome.InsertedOne` | nanograph-btree/src/tree.rs:250-377 | the table after an insertion does not depend on the bound on the levels it may climb |
| `BTreeIterator.BPlusTreeIterator.constructor` | nanograph-btree/src/iterator.rs:49-112 | what is ahead of a new forward iterator is exactly the range start..end of the map up to the first empty leaf, in order |
| `BTreeIterator.BPlusTreeIterator.PollNext` | nanograph-btree/src/iterator.rs:209-318 | yields the first of what is still to come and leaves the rest, until bounds, limit or leaves are exhausted |
| `BTreeIterator.WithinEnd` | nanograph-btree/src/iterator.rs:196-206 | a key is within an included end up to and including it, within an excluded end below it, in the order of ranks |
| `BTreeIterator.BPlusTreeIterator.Seek` | nanograph-btree/src/iterator.rs:322-347 | repositions to the range from the key to the old end, up to the first empty leaf |
| `BTreeIterator.BPlusTreeIterator.FromCursor` | nanograph-btree/src/iterator.rs:376-400 | an error exactly if the cursor names an id that is not a leaf; else an iterator at the position the cursor names, past the end of the leaf included |
| `BTreeIterator.BPlusTreeIterator.Resume` | nanograph-btree/src/iterator.rs:367-400 | saving a cursor at any point and rebuilding from it succeeds and leaves the same entries to come |
| `BTreeIterator.BPlusTreeIterator.Collect` | nanograph-btree/src/iterator.rs:403-413 | reading to the end gives everything still to come, once |
| `BTreeIterator.FindForwardStart` | nanograph-btree/src/iterator.rs:77-112 | the leaf and position from which on all keys satisfy the start bound, and none before |
| `BTreeIterator.Scan` | nanograph-btree/src/kvstore.rs:460-476 | a scan returns the bindings of the map within the bounds up to the first empty leaf, ascending; a limit keeps the lowest ones; with sound configurations nothing else cuts it short |
| `BTreeIterator.RangeUnique` | nanograph-kvt/src/memory.rs:125-147 | there is one such range |
| `BTreeIterator.ScanUnique` | nanograph-kvt/src/memory.rs:125-147 | a scan with any limit is the range cut at the limit, so tree and map-backed store return the same entries |
| `ScanPrefix.ComputePrefixEnd` | nanograph-kvt/src/kvstore.rs:101-109 | the in-place edit gives the exclusive upper bound |
| `ScanPrefix.PrefixRangeExact` | nanograph-kvt/src/kvstore.rs:95-121 | the range is exactly the keys under the prefix if and only if the prefix is non-empty and does not end in 0xFF |
| `ScanPrefix.PrefixRangeAfterFF` | nanograph-kvt/src/kvstore.rs:95-121 | a prefix ending in 0xFF finds itself only |
| `ScanPrefix.Scan` | nanograph-kvt/src/kvstore.rs:95-121 | a prefix scan of a tree returns exactly the bindings found that way up to the first empty leaf, in order, up to the limit; with sound configurations all of them |
| `WalRecord.FromU16` | nanograph-btree/src/wal_record.rs:37-46 | 1, 2, 3 and 4 are put, delete, checkpoint and clear; inverse of the numbering, nothing for other numbers |
| `WalRecord.EncodePut` | nanograph-btree/src/wal_record.rs:55-68 | byte by byte: the four base-256 digits of the key length lowest first, the key, those of the value length, the value; lengths cut to 32 bits |
| `WalRecord.DecodePut` | nanograph-btree/src/wal_record.rs:71-123 | on every payload, in terms of its bytes: succeeds exactly if the two lengths it names lie inside, with the key and value that stand there |
| `WalRecord.EncodeDelete` | nanograph-btree/src/wal_record.rs:126-135 | byte by byte: the four digits of the key length lowest first, the key |
| `WalRecord.DecodeDelete` | nanograph-btree/src/wal_record.rs:138-158 | on every payload, in terms of its bytes: succeeds exactly if the length it names lies inside, with the key that stands there |
| `WalRecord.ParsesAsSpelled` | nanograph-btree/src/wal_record.rs:71-158 | reading field by field is what the bytes spell, on every payload |
| `WalRecord.PutRoundTrip` | nanograph-btree/src/wal_record.rs:55-123 | decoding an encoded put gives it back if and only if both lengths are below 2^32 |
| `WalRecord.DeleteRoundTrip` | nanograph-btree/src/wal_record.rs:126-158 | decoding an encoded delete gives it back if and only if the length is below 2^32 |
| `KvStore.Shard.constructor` | nanograph-btree/src/kvstore.rs:106-111 | an empty log and an empty tree agree; the shard is valid for every configuration with at least two keys per node |
| `KvStore.Shard.Get` | nanograph-btree/src/kvstore.rs:343-351 | the binding of the map |
| `KvStore.Shard.Put` | nanograph-btree/src/kvstore.rs:353-372 | map update, with the log extended by this operation |
| `KvStore.Shard.Delete` | nanograph-btree/src/kvstore.rs:374-388 | map removal and whether the key was there, with the log extended by this operation |
| `KvStore.Shard.Clear` | nanograph-btree/src/kvstore.rs:643-671 | the empty map, with the log extended by a clear |
| `KvStore.Shard.CheckpointShard` | nanograph-btree/src/kvstore.rs:301-322 | the map stays, the log gains a checkpoint |
| `KvStore.Shard.BatchPut` | nanograph-btree/src/kvstore.rs:416-436 | log and tree agree on the whole batch although the log runs ahead of the tree; of several pairs with one key the last one counts |
| `KvStore.Shard.BatchDelete` | nanograph-btree/src/kvstore.rs:438-456 | all the keys are gone and the result is by how much the map shrank, repeated keys included |
| `KvStore.RecordBytes` | nanograph-btree/src/kvstore.rs:183-231 | a put is logged under 1 and a deletion under 2 with the bytes that spell them, a checkpoint under 3, a clearing under 4 |
| `KvStore.ReplaySpelled` | nanograph-btree/src/kvstore.rs:250-290 | a record of kind 1, 2 or 4 replays as the put, deletion or clearing that its bytes spell; 3 and other numbers change nothing |
| `KvStore.LastPutWins` | nanograph-btree/src/kvstore.rs:416-436 | after a batch each of its keys has the value of its last pair and every other key what it had |
| `KvStore.PutOpsAre` | nanograph-btree/src/kvstore.rs:416-436 | a batch is logged pair by pair in order |
| `KvStore.RecoverFromWal` | nanograph-btree/src/kvstore.rs:233-297 | replays record by record up to the first payload that does not parse; fails exactly if there is one, and in either case the tree holds the effect of the records before it |
| `KvStore.ReplayPrefix` | nanograph-btree/src/kvstore.rs:183-297 | replaying any prefix of the log gives the map after that prefix of writes, if none of its keys and values has 2^32 bytes or more |
| `KvStore.Shard.RecoverPrefix` | nanograph-btree/src/kvstore.rs:233-297 | recovery of any prefix of a reachable log into an empty tree gives the map after those writes, if none of its keys and values has 2^32 bytes or more; the whole log gives the present map |
| `MvccChain.SeenAt` | nanograph-btree/src/mvcc.rs:124-138 | a read returns the newest version visible at the snapshot |
| `MvccChain.HasConflict` | nanograph-btree/src/mvcc.rs:237-249 | a conflict is an uncommitted version or one committed after the snapshot, anywhere in the chain |
| `MvccChain.CommitVersions` | nanograph-btree/src/mvcc.rs:167-173 | stamps exactly the uncommitted versions of one transaction |
| `MvccChain.RollbackOfNothing` | nanograph-btree/src/mvcc.rs:176-178 | on a fully committed chain a rollback changes nothing |
| `MvccChain.RollbackKeeps` | nanograph-btree/src/mvcc.rs:176-178 | exactly the versions of other transactions stay |
| `MvccChain.RollbackSplits` | nanograph-btree/src/mvcc.rs:176-178 | each version stays or goes by itself, in order |
| `MvccChain.LatestIs` | nanograph-btree/src/mvcc.rs:157-164 | the latest value is that of the first committed version, or none |
| `MvccChain.GcVersions` | nanograph-btree/src/mvcc.rs:188-205 | the retain loop with its running count keeps what the recursive description keeps |
| `MvccChain.GcKeepsPrefix` | nanograph-btree/src/mvcc.rs:188-205 | on a descending committed chain gc keeps a non-empty prefix |
| `MvccChain.GcKeepsLatest` | nanograph-btree/src/mvcc.rs:188-205 | gc never changes the latest committed value |
| `MvccChain.GcReadsAbove` | nanograph-btree/src/mvcc.rs:188-205 | reads at or above the oldest kept timestamp are unchanged |
| `MvccChain.GcReadUnchangedIff` | nanograph-btree/src/mvcc.rs:188-205 | exactly which reads of a chain gc leaves unchanged |
| `MvccChain.GcCanDropAVisibleVersion` | nanograph-btree/src/mvcc.rs:188-205 | a two-version chain on which gc removes the version a snapshot at the watermark sees |
| `MvccLeaf.FindDecides` | nanograph-btree/src/mvcc_node.rs:60-62 | binary search in a sorted leaf decides whether a key has a chain |
| `MvccLeaf.WriteLeafSpec` | nanograph-btree/src/mvcc_node.rs:74-118 | an insert or remove on the leaf keeps it sorted and adds one version to one chain; removing an absent key adds none |
| `MvccLeaf.CommitInstalled` | nanograph-btree/src/mvcc_node.rs:147-154 | adding uncommitted versions and committing them afterwards installs them with one timestamp |
| `Mvcc.MvccBPlusTree.constructor` | nanograph-btree/src/mvcc_tree.rs:70-81 | an empty sorted leaf is the empty version store |
| `Mvcc.MvccBPlusTree.CommitVersions` | nanograph-btree/src/mvcc_tree.rs:125-129 | stamps the uncommitted versions of one transaction in every chain and no others |
| `Mvcc.MvccBPlusTree.Get` | nanograph-btree/src/mvcc_tree.rs:99-102 | the read of the version store at the snapshot |
| `Mvcc.MvccBPlusTree.HasConflict` | nanograph-btree/src/mvcc_tree.rs:148-151 | whether the key has a version committed after the snapshot |
| `Mvcc.MvccBPlusTree.AtomicCommit` | nanograph-btree/src/mvcc_tree.rs:163-201 | succeeds exactly if every version of every written key is committed at or before the snapshot; installs every write whatever their order and stamps every uncommitted version of the transaction with one timestamp, and on conflict installs none |
| `Mvcc.MvccBPlusTree.RollbackVersions` | nanograph-btree/src/mvcc_tree.rs:135-139 | drops exactly the uncommitted versions of the transaction, and chains that become empty |
| `Mvcc.MvccBPlusTree.GcVersions` | nanograph-btree/src/mvcc_tree.rs:215-225 | collects every chain at the current watermark and keeps every key |
| `MvccManager.MvccTransaction.Get` | nanograph-btree/src/mvcc_transaction.rs:84-102 | an error exactly when inactive; else the buffered write or the tree at the snapshot |
| `MvccManager.MvccTransaction.Put` | nanograph-btree/src/mvcc_transaction.rs:105-115 | buffers the write if active, else an error and no change |
| `MvccManager.MvccTransaction.Delete` | nanograph-btree/src/mvcc_transaction.rs:118-130 | buffers the deletion if active, else an error and no change |
| `MvccManager.MvccTransaction.Commit` | nanograph-btree/src/mvcc_transaction.rs:133-164 | succeeds exactly if active and every version of every written key is committed at or before its snapshot, then with all its versions stamped; inactive afterwards in any case |
| `MvccManager.MvccTransaction.Rollback` | nanograph-btree/src/mvcc_transaction.rs:167-184 | drops buffer and uncommitted versions, once |
| `MvccManager.MvccTransactionManager.constructor` | nanograph-btree/src/mvcc_transaction.rs:210-219 | the fields of a new manager; over an empty tree with watermark 0 they are the initial state of the call machine |
| `MvccManager.MvccTransactionManager.Begin` | nanograph-btree/src/mvcc_transaction.rs:222-256 | a begin step of the machine; the state is again the run of all calls so far |
| `MvccManager.MvccTransactionManager.Commit` | nanograph-btree/src/mvcc_transaction.rs:259-298 | a commit step of the machine; goes through exactly if active and none of its keys was committed since it began; the store afterwards is collected at the new watermark exactly on the 100th, 200th, ... commit |
| `MvccManager.MvccTransactionManager.Rollback` | nanograph-btree/src/mvcc_transaction.rs:301-317 | a rollback step of the machine |
| `MvccManager.MvccTransactionManager.UpdateMinSnapshotTs` | nanograph-btree/src/mvcc_transaction.rs:320-334 | the watermark becomes the smallest active snapshot, or the next timestamp if there is none |
| `MvccManager.MvccTransactionManager.Write` | nanograph-btree/src/mvcc_transaction.rs:105-130 | a put or delete of one of the manager's transactions is a write step of the machine |
| `MvccManager.MvccTransactionManager.Gc` | nanograph-btree/src/mvcc_transaction.rs:342-344 | a gc step of the machine |
| `MvccManager.MvccTransactionManager.Read` | nanograph-btree/src/mvcc_transaction.rs:84-102 | an error exactly when inactive; else the transaction's own write or the state in which it began, whatever calls came after, if and only if gc has left the version it sees; always so before any collection is asked for and within the first 99 commits |
| `MvccManager.BetweenCalls` | nanograph-btree/src/mvcc_transaction.rs:222-334 | after every run of manager calls no timestamp is drawn, every version is committed and the next id is new |
| `MvccModel.RunInv` | nanograph-btree/src/mvcc_transaction.rs:222-298 | in every interleaving of begins, writes, draws, applies, aborts and collections every chain is a non-empty prefix of the versions the log installed, fully committed and strictly descending |
| `MvccSnapshot.FirstCommitterAlwaysWins` | nanograph-btree/src/mvcc_tree.rs:170-198 | in every interleaving, of two commits that installed the same key the later one's snapshot is at or above the earlier one's timestamp |
| `MvccSnapshot.ConflictsIff` | nanograph-btree/src/mvcc_tree.rs:170-186 | the converse, in every reachable state of every interleaving: a commit meets a conflict if and only if a commit stamped after its snapshot installed one of its keys |
| `MvccSnapshot.ConflictsIffOvertaken` | nanograph-btree/src/mvcc_tree.rs:170-186 | after every run of manager calls a commit meets a conflict if and only if one of its keys was committed since it began |
| `MvccSnapshot.FailuresLeaveNoTrace` | nanograph-btree/src/mvcc_tree.rs:173-186 | in every reachable state a conflicting commit or a rollback leaves the version store identical |
| `MvccSnapshot.CommitReadsWhole` | nanograph-btree/src/mvcc_tree.rs:187-198 | a successful commit is seen whole: snapshots from its timestamp on read every one of its writes, earlier ones none, and every other read is as before |
| `MvccSnapshot.ReadIsReplay` | nanograph-btree/src/mvcc_tree.rs:99-102 | in every reachable state a read at a snapshot is the replay of the commits stamped up to it, if and only if gc has left the version it sees |
| `MvccSnapshot.UntouchedIsThere` | nanograph-btree/src/mvcc.rs:188-205 | that holds wherever gc has dropped nothing or has left a version at or below the snapshot |
| `MvccSnapshot.RunCallsInv` | nanograph-btree/src/mvcc_transaction.rs:222-334 | after every run of manager calls each snapshot separates the commits before its begin from those after it |
| `MvccSnapshot.WatermarkBelowSnapshots` | nanograph-btree/src/mvcc_transaction.rs:320-334 | after every run of manager calls the watermark is at most every active snapshot |
| `MvccSnapshot.WatermarkIsOldest` | nanograph-btree/src/mvcc_transaction.rs:320-334 | after every run of manager calls the watermark is exactly the oldest live snapshot, or the next timestamp if there is none |
| `MvccSnapshot.CollectsEveryHundredth` | nanograph-btree/src/mvcc_transaction.rs:279-295 | a commit collects, at the watermark it has just computed, if and only if it is the 100th, 200th, ... |
| `MvccSnapshot.NothingCollected` | nanograph-btree/src/mvcc_transaction.rs:282-295 | with fewer than 100 commits and no call of gc every chain holds all versions ever installed |
| `MvccSnapshot.ReadsBeginTimeState` | nanograph-btree/src/mvcc_transaction.rs:84-102 | after every run of manager calls a transaction reads its own write or the state in which it began, if and only if gc has left the version it sees |
| `MvccSnapshot.ReadsBeginTimeStateEarly` | nanograph-btree/src/mvcc_transaction.rs:84-102 | on such runs a transaction reads its own write or the state in which it began, without a condition |
| `MvccSlip.SlipsIff` | nanograph-btree/src/mvcc_transaction.rs:222-271 | some later interleaving logs a commit at or below a snapshot taken now if and only if a drawn commit would go through now |
| `MvccSlip.ReadSlipsIff` | nanograph-btree/src/mvcc_transaction.rs:222-271 | some later interleaving changes what a snapshot taken now reads for a key, gc apart, if and only if some drawn commit would go through now and would do so with a write of that key |
| `MvccSlip.QuietBeginReadsStable` | nanograph-btree/src/mvcc_transaction.rs:222-240 | otherwise the begin-time state is what is read in every later interleaving, if and only if gc has left the version it sees |
| `MvccSnapshot.UnquietBeginCanSlip` | nanograph-btree/src/mvcc_transaction.rs:259-271 | a run in which a commit appears below a snapshot taken between its draw and its apply |
| `MvccSnapshot.GcKeepsReadIff` | nanograph-btree/src/mvcc_tree.rs:215-225 | exactly when a collection leaves a transaction's read as it was |
| `MvccSnapshot.GcLosesASnapshot` | nanograph-btree/src/mvcc_transaction.rs:342-344 | a run of calls in which a collection takes a value away from an active reader |
| `ArtNode.FindChild` | nanograph-art/src/node.rs:177-214 | linear scan, binary search, index table and direct table return what the search of any node finds, which on a node in order is the child filed under the byte |
| `ArtNode.SearchFindsAllIff` | nanograph-art/src/node.rs:188-203 | binary search finds every byte of a row at its place if and only if the row is ascending |
| `ArtNode.CountIsExact` | nanograph-art/src/node.rs:43-90 | the child count is the number of bytes with a child, in every layout |
| `ArtLayout.AddChild` | nanograph-art/src/tree.rs:413-452 | the child is added and all others stay, through every growth, if and only if the node has room for it; a full Node256 never has a byte missing |
| `ArtLayout.AddedIs` | nanograph-art/src/tree.rs:413-600 | in every layout and through every growth, at 4, 16 and 48 children, the result has exactly one child more and is in order, if and only if the node has room for the child |
| `ArtLayout.InsertSorted` | nanograph-art/src/tree.rs:469-524 | the byte goes before the first larger one and the rest moves up by one |
| `ArtLayout.AddToNode48` | nanograph-art/src/tree.rs:527-536 | the byte leads to the slot that the count names; correct exactly if no other byte does |
| `ArtLayout.GrowToNode16` | nanograph-art/src/tree.rs:553-566 | the same children; sorted exactly if the row was |
| `ArtLayout.GrowToNode48` | nanograph-art/src/tree.rs:569-583 | the same children, the table packed |
| `ArtLayout.GrowToNode256` | nanograph-art/src/tree.rs:586-600 | the same children |
| `ArtLayout.ReplaceChild` | nanograph-art/src/tree.rs:603-645 | one child replaced, all others as they were |
| `ArtLayout.RemoveChild` | nanograph-art/src/tree.rs:736-795 | exactly one child dropped; the layout shrinks exactly when 4, 16 or 48 children are left, to a sorted row or a packed table; a Node4 is replaced by its compression with one child left, by nothing with none and no value; a Node48 keeps its table with a hole otherwise |
| `ArtLayout.DropFromRow` | nanograph-art/src/tree.rs:798-835 | the shifted row holds every other child and stays sorted if it was |
| `ArtLayout.Drop48` | nanograph-art/src/tree.rs:838-849 | the table leads to every other child as before and the count is exact |
| `ArtLayout.Drop256` | nanograph-art/src/tree.rs:852-861 | every other child as before and the count is exact |
| `ArtLayout.ShrinkToNode4` | nanograph-art/src/tree.rs:864-881 | the same children in a smaller row |
| `ArtLayout.ShrinkToNode16` | nanograph-art/src/tree.rs:884-902 | the same children, gathered in byte order, with room for all of them |
| `ArtLayout.ShrinkToNode48` | nanograph-art/src/tree.rs:905-922 | the same children through a packed injective table |
| `ArtModel.CheckPrefix` | nanograph-art/src/tree.rs:225-233 | the length of the longest common prefix of the partial key and the rest of the key |
| `ArtModel.LookupHolds` | nanograph-art/src/tree.rs:80-126 | following the key finds a value if and only if it is stored anywhere in the tree under that key |
| `ArtModel.FetchIsLookup` | nanograph-art/src/tree.rs:80-126 | in a well-formed tree what get answers is what is stored |
| `ArtModel.CompressKeeps` | nanograph-art/src/tree.rs:925-940 | path compression keeps the tree well formed and everything it stores |
| `ArtModel.CompressedIsChild` | nanograph-art/src/tree.rs:925-940 | a Node4 with one child and no value becomes that child, with its stem where it was |
| `ArtModel.Repartial` | nanograph-art/src/tree.rs:386-410 | moving bytes between path and partial key changes nothing that is stored |
| `ArtModel.UpdatedEdits` | nanograph-art/src/tree.rs:719-730 | an edit of one child is that edit of the whole node |
| `ArtModel.ValueEdits` | nanograph-art/src/tree.rs:336-360 | setting or clearing a node's value changes the key that ends there and no other |
| `ArtModel.HeldExtends` | nanograph-art/src/tree.rs:88-125 | every stored key extends the path of the node that holds it |
| `Art.Search` | nanograph-art/src/tree.rs:80-126 | the loop of get is the recursive read, on any tree whose arrays have the right lengths |
| `Art.RemoveRecursive` | nanograph-art/src/tree.rs:648-733 | never an error; returns the old value, removes exactly that key and keeps the node well formed; a leaf below a Node48 leaves what `Left48` says |
| `Art.AdaptiveRadixTree.constructor` | nanograph-art/src/tree.rs:31-36 | the empty map |
| `Art.AdaptiveRadixTree.Len` | nanograph-art/src/tree.rs:39-41 | the size field is the number of keys in the map |
| `Art.AdaptiveRadixTree.Clear` | nanograph-art/src/tree.rs:49-52 | the empty map again |
| `Art.AdaptiveRadixTree.ContainsKey` | nanograph-art/src/tree.rs:129-131 | whether get answers; on a tree in order, whether the map has the key |
| `Art.AdaptiveRadixTree.Get` | nanograph-art/src/tree.rs:80-126 | the recursive read, nothing for the empty key; on a tree in order, the binding of the map |
| `Art.AdaptiveRadixTree.Remove` | nanograph-art/src/tree.rs:134-159 | an error exactly for the empty key; else map removal with the old value, size and well-formedness kept; a leaf below a Node48 at the root leaves what `Left48` says |
| `Art.AdaptiveRadixTree.Insert` | nanograph-art/src/tree.rs:60-77 | returns the old value and counts keys right unless it panics; leaves the tree in order exactly for safe insertions; every later read is that of the updated map if and only if there is no panic and no stored key is hidden, which while nothing is removed is exactly if the insertion is safe; always so while keys arrive in order |
| `Art.AdaptiveRadixTree.Items` | nanograph-art/src/tree.rs:985-987 | iterating yields bindings of the map, each key once, and exactly those that leaves store, in the order in which rows and tables hold the children at every node; ascending if and only if children with leaves stand in byte order; all of them if and only if no inner node holds a value |
| `ArtInsert.InsertRecursive` | nanograph-art/src/tree.rs:162-222 | the loops and array edits compute exactly the recursive description `Inserted`, panic included, about which `InsertedIs`, `PanicsIff` and `InsertedReads` speak |
| `ArtInsert.CreateInnerNode` | nanograph-art/src/tree.rs:267-333 | a leaf and a new key under their common stem, either of which may end there |
| `ArtInsert.SplitEdits` | nanograph-art/src/tree.rs:236-264 | splitting a partial key keeps what the node stored and adds the new key |
| `ArtInsert.EndsInside` | nanograph-art/src/tree.rs:256-257 | the split reads past the key exactly if the key is a prefix of the stem |
| `ArtInsert.HoleFails` | nanograph-art/src/tree.rs:774-784 | what a packed Node48 leaves after a removal is in order after the next addition if and only if it has shrunk to a sorted Node16, from 17 children on down, or the last slot was freed |
| `ArtInsert.InsertedIs` | nanograph-art/src/tree.rs:162-222 | for every well-formed tree the outcome of an insertion is well formed if and only if the insertion is safe, and then exactly that key has changed |
| `ArtInsert.PanicsIff` | nanograph-art/src/tree.rs:256-257 | an insertion panics if and only if the key ends inside a partial key on its way |
| `ArtReads.AddedAnswers` | nanograph-art/src/tree.rs:413-600 | exactly what every read answers once a leaf has been added: nothing below a lost byte, the new value for the new key, and what was stored elsewhere |
| `ArtReads.AddedReads` | nanograph-art/src/tree.rs:413-600 | all reads are right after a leaf has been added if and only if it is found and every subtree it hides stores nothing |
| `ArtReads.HiddenKey` | nanograph-art/src/node.rs:188-203 | a key stored below a lost byte reads as absent |
| `ArtReads.InsertedReads` | nanograph-art/src/tree.rs:162-222 | an insertion returns the old value unless it panics, and all reads are those of the updated map if and only if it neither panics nor hides a stored key |
| `ArtReads.SafeReads` | nanograph-art/src/tree.rs:162-222 | safe insertions hide nothing; where every subtree stores something only safe ones do |
| `ArtReads.InsertedStocked` | nanograph-art/src/tree.rs:162-222 | a safe insertion leaves something in every subtree, so on insertion-only runs the two conditions are one |
| `ArtReads.HoleHides` | nanograph-art/src/tree.rs:774-784 | a packed Node48 that loses a child before its last one and gains another: what the last one stores is still stored after the removal and reads as absent after the addition, except with 17 children, where the node has shrunk and it is read |
| `ArtRuns.UnsortedRun` | nanograph-art/src/tree.rs:455-466 | five insertions into an empty tree, after which the first key reads as absent |
| `ArtRuns.PrefixRun` | nanograph-art/src/tree.rs:256-257 | three insertions into an empty tree, the last of which panics and leaves nothing to be read |
| `ArtRuns.HoleRun` | nanograph-art/src/tree.rs:838-849 | 1 to m inserted, any b below m removed and m + 1 inserted, through the object: for every m from 18 to 48 the stored key m reads as absent, for 17 it is read |
| `ArtRuns.SkippedRun` | nanograph-art/src/iterator.rs:186-210 | two insertions into an empty tree, after which both keys are read and an iteration yields one of them |
| `ArtRuns.RowRun` | nanograph-art/src/iterator.rs:69-130 | [2], [1] and [3] inserted into an empty tree are yielded in this order |
| `Art.InsertedAnswers` | nanograph-art/src/tree.rs:60-77 | in terms of the map: when an insertion represents its update and when every later read is that of the update |
| `ArtIter.GetFirstChild` | nanograph-art/src/iterator.rs:69-104 | the child in the first position of a row, under the smallest live byte of a table, or none |
| `ArtIter.GetNextChild` | nanograph-art/src/iterator.rs:107-179 | the child in the next position of a row, under the next live byte of a table, or none |
| `ArtIter.ArtIterator.constructor` | nanograph-art/src/iterator.rs:32-40 | all leaves of the mirrored tree are still to come, children in the order that `MirrorRow` and `MirrorTable` state |
| `ArtIter.MirrorRow` | nanograph-art/src/iterator.rs:69-130 | the i-th child walked in a row is the one in its i-th position |
| `ArtIter.MirrorTable` | nanograph-art/src/iterator.rs:69-179 | the i-th child walked in a table is the one under its i-th live byte |
| `ArtIter.ArtIterator.DescendLeftmost` | nanograph-art/src/iterator.rs:43-66 | puts exactly the leaves of the subtree before what was to come |
| `ArtIter.ArtIterator.Next` | nanograph-art/src/iterator.rs:185-214 | terminates, yields the first of what is to come and leaves the rest |
| `ArtScan.YieldedInOrder` | nanograph-art/src/iterator.rs:43-214 | no key twice, and ascending keys where rows are sorted |
| `ArtScan.YieldedInTreeOrder` | nanograph-art/src/iterator.rs:43-214 | of two keys the one is yielded first whose child stands first where their ways part |
| `ArtScan.OrderOnce` | nanograph-art/src/iterator.rs:43-214 | that order leaves no choice |
| `ArtScan.AscendingIff` | nanograph-art/src/iterator.rs:43-214 | the keys come in ascending order if and only if at every node the children with leaves below stand in the order of their bytes |
| `ArtScan.StoredIsYielded` | nanograph-art/src/iterator.rs:43-214 | without inner values everything stored is yielded |
| `ArtScan.InnerValueSkipped` | nanograph-art/src/iterator.rs:186-210 | a tree with an inner value has an entry that is never yielded |
| `ArtScan.YieldedIsLeaf` | nanograph-art/src/iterator.rs:43-214 | an iteration yields exactly what the leaves store |
| `ArtScan.IterationIsContents` | nanograph-art/src/iterator.rs:43-214 | an iteration yields bindings of the map only, and all of them if and only if no inner node holds a value |

## Left out

- BTree.BPlusTree.constructor: no invariant is claimed for configurations with fewer than two keys per node; two equal separators become possible there, and the standard library leaves open which of two equal keys a binary search returns. Full occupancy and the height bound are stated for 1 <= min_keys, 2 * min_keys <= max_keys and 3 <= max_keys.
- MvccManager.MvccTransactionManager.constructor: no invariant is claimed for a manager over a tree that already holds versions; its first timestamps would repeat those of the versions.
- Reverse scans and the `prev` links of leaves: the start bound is not kept and the links go stale, so there is no whole-run statement to make.
- B+Tree and ART persistence, manifests and file I/O.
- Creating shards, metrics, statistics of shards, and the store without a log: the log is taken to be enabled and every append to succeed.
- `BTreeTransaction`, which bypasses the log, and the map-backed store beyond the range its scan reads.
- 64-bit wrap-around of node ids, transaction ids, timestamps and counters: they are unbounded numbers here.
- Two concurrent calls of commit on the same transaction, where the active flag and the atomic commit are not one step; the machine applies each drawn timestamp once and an inactive transaction not at all.
- Locks, lock poisoning, async and stream plumbing: each method is one step, except that drawing a timestamp and applying a commit are separate steps in the interleaving model.
- Direct use of the versioned tree outside the manager, and splitting of its leaf, which the program never does.
- ArtInsert.InsertRecursive: the index panic is an error result here, with the root taken out as the panic leaves it.
- Further insertions and removals on an ART that is no longer in order; reads of it are modelled.
- ART range iteration, memory accounting and the ART's own version chains.
- Sharing of ART nodes between clones: nodes are values, so copy-on-write is not visible.
- The allocation of node arrays: fixed-size arrays are sequences of fixed length.
- The key-value manager, shard manager, index crates and binaries: delegation, serialization and layout.
