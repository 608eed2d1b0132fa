# A verified model of RMDB

RMDB is a small relational engine: a no-wait two-phase lock manager, a transaction
manager, a page-based B+ tree, a join planner with iterator executors, a buffer pool
with LRU replacement, and record files with slot bitmaps. This project models the
logic of these parts in Dafny and proves what they promise for every input, every
reachable state and every interleaving. `dafny verify dfyconfig.toml` checks all of it.

The model follows the code. Where the code falls short of what it is for, the model
keeps the code's behaviour and the theorem says exactly when the promise holds.

## How it is laid out

**Locks and transactions.** `LockTable` has a lock queue as a value: the decision of each of
the six lock functions, `unlock` with its cast between two enums of different order, and the
invariant under which grants are sound although group modes and counters drift. `LockDrift`
says how far they drift over any sequence of calls. `LockManager` has the lock manager and
the transaction as classes whose methods are proved to do what those functions say.
`History` has record operations, what it means for a history to be legal, and the regrouping
of a history into a serial one. `Schedules` is a step system over any number of
transactions: table locks, record reads and writes, commit and abort, with releases and undo
writes one step each, and an invariant of all its runs. `Isolation` has the theorems about
whole runs, `Lifecycle` those about how transactions end, and `Rollback` those about aborted
ones. In these an insert may go to the first free slot of any page of its table. `Placement`
follows the file headers along a run and so has the runs in which every insert, rollback's
included, goes to the slot its file really finds; `RollbackRuns` has such runs from any
sound files. `Transactions` has the commit and abort loops as the code runs them, `Endings`
shows that the steps of a commit or an abort end as these loops do, and `PageRollback` has
what the abort loop makes of deletes on one page.

**The B+ tree.** `BTreeNode` has one node. `BTreeShape` states separators, parent
pointers, heights and key ranges over a map from page numbers to nodes. `BTreeInsert`,
`BTreeLeaves` and `BTreeDelete` show what splitting, adopting, redistributing, merging
and collapsing keep. `BTreeIndex` is the index as a class that refines a map from keys
to rids, and `BTreeScan` the scan along the leaf ring. `BTreeRuns` has the deletions that
leave no sound tree.

**Queries.** `Plans` gives plans a meaning. `Planner` and `MakeOneRel` build the join
tree; `Streams` says what executors deliver, errors included; `Executors` are the scan
and the nested-loop join as objects with cursors; `Queries` puts planner and executors
together, and `Selections` has what selects of common forms return.

**Storage.** `Replacer` is the LRU list. `Frames` states what every pool operation keeps,
and `BufferPool` has the pool as a class over an array of frames. `FreeSlots` has the list of
pages with room and the search for a slot over file and page headers. `Bitmap`, `RecordFiles`
and `RecordScan` have slot bitmaps, the record file and its scan. `Layout` has the page
arithmetic.

## What is true only under a condition

- A compatible table-lock request from a newcomer is granted in every mode exactly when
  the group mode is the exact one; after `unlock` it may not be
  (`LockTable.CompatibleIsGranted`, `LockTable.MiscastRefuses`). A holder's request is
  granted exactly when what it would end up with is compatible with all others and the
  group mode or counter the upgrade looks at has not drifted
  (`LockTable.HolderIsGranted`, `LockTable.DriftRefuses`). Each counter is too high by the
  number of upgrades from a mode it counts to X, and by nothing else
  (`LockDrift.DriftIsUpgrades`). The group mode stays exact through grants, and through an
  `unlock` exactly when that leaves nobody, or a holder of S or SIX
  (`LockDrift.GrantGroup`, `LockDrift.ReleaseGroup`).
- Rollback re-inserts a deleted record wherever its file finds a slot: the first free slot of
  the first page with room. A record deleted and inserted again is back under its own id
  exactly when its page was full before the delete, or was first on the list and had no free
  slot before the record's own (`FreeSlots.DeleteThenInsert`, `RecordFiles.PutBack`). For a
  transaction that deletes one record and aborts, this decides whether everything is restored
  (`RollbackRuns.DeleteRolledBack`).
- Amid other transactions, putting a record back throws exactly when another one has a lock on
  the slot found, and otherwise brings it back under its own id exactly when at that moment
  its page is first on the list and every earlier slot is taken (`Placement.UndoFindsSlot`).
  An abort for which that was so at every undo neither throws nor leaves anything unrestored
  (`Placement.HomeRestores`). In any abort, whatever was put elsewhere, only the slots
  concerned can differ (`Rollback.AbortRestores`).
- For deletes on one page that is first on the list, what the abort loop ends in is decided
  before the call: the free slots are filled in ascending order, the record deleted last
  first. It restores everything exactly when each of these slots was emptied by the
  transaction and held a record equal to the one it gets (`PageRollback.PageRestored`). Rows
  of a full page deleted in scan order come back reversed (`PageRollback.ScanOrderReverses`,
  `RollbackRuns.RecordsChangePlaces`), rows deleted in the opposite order come back right
  (`PageRollback.BackwardsRestores`). `RollbackRuns.AbortThrows` has the runs that throw.
- Deleting a key leaves a sound tree exactly when another key remains and no merge leaves
  an inner node other than the root below half (`BTreeIndex.Index.DeleteEntry`,
  `BTreeRuns.DeleteLast`, `BTreeRuns.DeleteUnderflows`); otherwise the pages are no sound
  tree under any choice of key ranges, leaf order and contents. In the second case the code goes
  on to take the inner node's sibling from its leaf links, which hold page 0. The model
  stops before that, so there the statement is about the pages at that point and not about
  what the code makes of page 0 afterwards.
- A select compares two columns of one table where the columns can be found exactly when
  that table is first in the FROM list (`MakeOneRel.Build`), and a run ends in an error
  exactly when a scan meets a foreign column or a join with tuples on its left has none
  on its right (`Queries.Select`). A run that ends without an error has the right answer
  in every case. A select whose answer is not empty ends without an error exactly when it
  compares two columns of one table only on the first table. Without a WHERE clause it ends
  without one exactly when there is one table, the last table is empty, or none is
  (`Queries.SelectCross`). From two tables with join conditions it fails exactly when the left
  table of the first one has a row that meets the conditions on that table alone and the
  right one has none (`Selections.SelectTwo`).
- A record page holds as many slots as the code reckons with, or one less: one more would
  still fit exactly when it takes up bits that the division rounds away
  (`Layout.MostSlots`, `Layout.OneSlotShort`).
- Deleting a record keeps the page counts right exactly when the slot was live
  (`RecordFiles.RecordFile.DeleteRecord`, `RecordFiles.DeleteTwice`).
- A page that is not resident cannot be fetched exactly when every frame is pinned or
  lost, or the page lies past the end of its file once the frame's old page is written
  back. The second case is an error that leaves the frame mapped to the page without pins;
  the pool stays sound, but the frame is lost to it unless a deletion had left it on the
  replacer's list (`BufferPool.Pool.FetchPage`, `BufferPool.FetchNeverWritten`).
- A new page keeps the pool sound exactly when its number is not resident in another
  frame. It never is while only numbers that were handed out are fetched, and after an
  error on any other number that stops being so (`BufferPool.Pool.NewPage`,
  `BufferPool.FetchNeverAllocated`).
- Eviction loses nothing while no written page was released for the last time as clean
  (`Frames.NothingReverted`); otherwise the page reads as the disk has it
  (`BufferPool.CleanReleaseLoses`).

## Model

| member | source | states |
|---|---|---|
| `LockTable.GrantKeeps` | Lab4File/concurrency/lock_manager.cpp:37-376 | whichever lock function grants, the queue stays pairwise compatible with one request per transaction, the group mode and counters still cover it although both drift, nobody else's request changes, and the requester holds at least what it asked for and what it held |
| `LockTable.ReleaseKeeps` | Lab4File/concurrency/lock_manager.cpp:384-443 | unlock removes the transaction's request and no other, and the group mode cast between the two enums is still strong enough for what remains |
| `LockTable.CompatibleIsGranted` | Lab4File/concurrency/lock_manager.cpp:143-376 | all compatible table requests of a newcomer are granted if and only if the group mode is the exact one |
| `LockTable.MiscastRefuses` | Lab4File/concurrency/lock_manager.cpp:435-441 | a run after which a compatible IX request is refused because remaining IX is cast to X |
| `LockTable.HolderIsGranted` | Lab4File/concurrency/lock_manager.cpp:143-376 | a holder's table request is granted if and only if what it would end up with is compatible with all other holders and the group mode or counter that the upgrade reads is exact |
| `LockTable.DriftRefuses` | Lab4File/concurrency/lock_manager.cpp:213-443 | a run after which a sole holder of S is refused IX because an upgrade to X left the shared counter one too high |
| `LockTable.SharedRefused` | Lab4File/concurrency/lock_manager.cpp:37-78 | an S request on a record is refused if and only if someone else has it exclusively |
| `LockTable.ExclusiveRefused` | Lab4File/concurrency/lock_manager.cpp:87-135 | an X request on a record is refused if and only if someone else is in the queue |
| `LockDrift.DriftIsUpgrades` | Lab4File/concurrency/lock_manager.cpp:37-443 | after any sequence of lock and unlock calls each counter is the number of requests it should count plus the number of upgrades from such a mode to X, so it is exact until the first one and never again |
| `LockDrift.GrantGroup` | Lab4File/concurrency/lock_manager.cpp:37-376 | whichever lock function grants, an exact group mode stays exact |
| `LockDrift.ReleaseGroup` | Lab4File/concurrency/lock_manager.cpp:384-443 | after unlock the group mode is exact if and only if nobody is left in the queue, or someone with S or SIX is |
| `LockDrift.GroupOverRun` | Lab4File/concurrency/lock_manager.cpp:143-443 | a table's queue is sound after any sequence of calls, and its group mode exact as long as no unlock left others of whom none has S or SIX |
| `LockDrift.RowGroup` | Lab4File/concurrency/lock_manager.cpp:37-135 | the group mode of a record's queue is always exact |
| `LockManager.Manager.CheckLock` | Lab4File/concurrency/lock_manager.cpp:13-28 | the phase moves from DEFAULT to GROWING, a finished transaction gets false, a shrinking one the exception |
| `LockManager.Manager.LockSharedOnRecord` | Lab4File/concurrency/lock_manager.cpp:37-78 | table, phase, lock set and reply after the call are those of the step used in all run theorems |
| `LockManager.Manager.LockExclusiveOnRecord` | Lab4File/concurrency/lock_manager.cpp:87-135 | as above for X on a record, with the in-place upgrade of a sole reader |
| `LockManager.Manager.LockSharedOnTable` | Lab4File/concurrency/lock_manager.cpp:143-205 | as above for S on a table, with the upgrades from IS and from a sole IX to SIX |
| `LockManager.Manager.LockExclusiveOnTable` | Lab4File/concurrency/lock_manager.cpp:213-259 | as above for X on a table |
| `LockManager.Manager.LockISOnTable` | Lab4File/concurrency/lock_manager.cpp:267-308 | as above for IS on a table |
| `LockManager.Manager.LockIXOnTable` | Lab4File/concurrency/lock_manager.cpp:316-376 | as above for IX on a table, with the upgrades from IS and from a sole S to SIX |
| `LockManager.Manager.Unlock` | Lab4File/concurrency/lock_manager.cpp:384-443 | the table and phase after the call are those of the release step; false exactly for a finished transaction |
| `LockManager.RecomputeTop` | Lab4File/concurrency/lock_manager.cpp:435-441 | the loop finds the highest rank in the queue, never below IS |
| `Schedules.NextKeeps` | Lab4File/concurrency/lock_manager.cpp:13-443 | every step of any transaction keeps queues sound, every request owned, past operations protected by held locks until the first release, conflicts ordered by first release, and the history legal |
| `Schedules.RunKeeps` | src/rmdb.cpp:59-67 | that invariant holds after every run of unfinished transactions |
| `Isolation.LocksAlwaysCompatible` | Lab4File/concurrency/lock_manager.cpp:143-443 | after any interleaving every queue has at most one request per transaction and only pairwise compatible modes |
| `Isolation.NoLockLeftBehind` | Lab4File/transaction_manager.cpp:50-126 | whoever has a request in any queue is unfinished and has the lock in its lock set; after commit or a completed abort no queue mentions the transaction |
| `Isolation.PhasesMoveForward` | Lab4File/concurrency/lock_manager.cpp:13-28 | between any two points of a run phases only move forward, a finished transaction stays as it finished, and one that released a lock never gains or strengthens one |
| `Isolation.EveryRunIsSerializable` | src/record/rm_file_handle.cpp:19-131 | the record operations of every run, undo writes included, regrouped by lock point form a serial history with the same operations in each transaction's own order, the same bytes for every read and the same final records |
| `Isolation.ConflictGraphAcyclic` | src/record/rm_file_handle.cpp:19-131 | the conflict graph of every run has no cycle |
| `Isolation.NoDirtyAccess` | Lab4File/transaction_manager.cpp:57-126 | once someone touches what t wrote, t has begun to release and does nothing more, so nothing is read and later undone |
| `Lifecycle.StepDoes` | src/record/rm_file_handle.cpp:19-131 | every step adds to the history exactly the read, insert, update, delete or undo it stands for and changes that record accordingly and no other, or nothing at all when the row lock is refused |
| `Lifecycle.AsksFirst` | src/record/rm_file_handle.cpp:19-131 | in every run each read, write, undo and table lock asks the lock manager first; when that throws, a running transaction goes on to roll back and one that is rolling back is stuck, otherwise it holds the lock at least that strongly |
| `Lifecycle.CommitKeeps` | Lab4File/transaction_manager.cpp:50-77 | in every run, from the moment a transaction starts to commit it does nothing more to any record and nothing it did is undone |
| `Lifecycle.EndsAsTold` | Lab4File/transaction_manager.cpp:50-126 | in every run a finished transaction is committed if and only if it was told to commit, and otherwise aborted; one told to abort is never told to commit |
| `Lifecycle.AbortedWasRolledBack` | Lab4File/transaction_manager.cpp:84-126 | in every run an aborted transaction had walked its whole write set before it released anything, and has done nothing since |
| `Endings.CommitRuns` | Lab4File/transaction_manager.cpp:50-77 | from any state a running transaction can take the steps of a commit, releasing its locks in any order, and they end as the commit method does, records unchanged |
| `Endings.AbortRuns` | Lab4File/transaction_manager.cpp:84-126 | from any state in which the slots found are vacant a running transaction can take the steps of an abort, and they end in the records, locks and status that the abort loop leaves, or where it throws |
| `Rollback.AbortRestores` | Lab4File/transaction_manager.cpp:84-126 | amid any interleaving, every record the transaction wrote reads as just before its first write, except possibly the own slot and the slot used of a deleted record that was put elsewhere; so an abort has restored everything if and only if those read as before, which holds when there are none, in particular without deletes, and not when there is exactly one |
| `Rollback.AbortNeverThrows` | Lab4File/transaction_manager.cpp:84-126 | an abort that has put no record elsewhere finds its row locks held and cannot throw |
| `Rollback.StraysCounted` | Lab4File/transaction_manager.cpp:100-110 | the list of misplaced records is as long as the number of undo steps of the run that used another slot |
| `Rollback.UndoOfDelete` | Lab4File/transaction_manager.cpp:100-110 | whichever page of the table the slot is taken from, undoing a delete throws if and only if another transaction has a lock on the slot, and otherwise restores the record under its id if and only if the slot is the old one or the old one already holds the same bytes |
| `Placement.OperationKeeps` | src/record/rm_file_handle.cpp:45-107 | inserting at the slot found, a refused insert and deleting a live record keep the headers of every file fitting its records |
| `Placement.FilesStaySound` | src/record/rm_file_handle.cpp:45-107 | in every run in which inserts use the slots found and no deleted record was put elsewhere, page counts and the list of pages with room stay exact |
| `Placement.UndoFindsSlot` | Lab4File/transaction_manager.cpp:97-106 | in such a run the next undo of a delete throws if and only if another transaction has a lock on the slot its file finds, and otherwise brings the record back under its id if and only if its page is first on the list and every earlier slot is taken |
| `Placement.HomeRestores` | Lab4File/transaction_manager.cpp:84-126 | an abort puts no record elsewhere if and only if at each undo the record's page was the one opened, every earlier slot taken and its own free; then it does not throw and restores everything |
| `RollbackRuns.DeleteRolledBack` | Lab4File/transaction_manager.cpp:84-126 | for every store, sound files and live record, the run that deletes it and aborts puts it where its file finds a slot, and restores everything if and only if the page was full, or was first on the list and had no free slot before the record's |
| `RollbackRuns.RecordsChangePlaces` | Lab4File/transaction_manager.cpp:84-126 | two records of one page, deleted in slot order and rolled back with the slots their file finds, change places; restored if and only if they were equal |
| `RollbackRuns.AbortThrows` | Lab4File/transaction_manager.cpp:84-126 | two transactions each delete a record of one page; the one that deleted the later slot aborts, its file finds the slot the other has emptied, and the exception leaves abort with the record gone |
| `History.SerialEquivalent` | src/record/rm_file_handle.cpp:19-131 | a legal history whose conflicts follow one ranking can be regrouped serially with every read and the final records unchanged |
| `Transactions.Records.GetRecord` | src/record/rm_file_handle.cpp:19-37 | the shared row lock first, then the slot's bytes, or the lock's exception |
| `Transactions.Records.InsertRecord` | src/record/rm_file_handle.cpp:45-73 | the slot its file finds, then the exclusive row lock on it, then the record and the headers; when the lock throws only a newly opened page stays |
| `Transactions.Records.WriteSlot` | src/record/rm_file_handle.cpp:87-131 | the exclusive row lock first, then exactly the slot and its page header change, or nothing when the lock throws |
| `Transactions.TransactionManager.Commit` | Lab4File/transaction_manager.cpp:50-77 | every lock of the set is released, nothing else in the table changes, and the transaction ends committed with empty sets |
| `Transactions.TransactionManager.Abort` | Lab4File/transaction_manager.cpp:84-126 | in both outcomes the records and file headers, and either everything released or the lock table and sets as the exception leaves them, are those of undoing the write set backwards |
| `Transactions.HomeCompletes` | Lab4File/transaction_manager.cpp:84-126 | with its row locks held and every deleted record's slot the one its file finds, the loop completes, changes no lock, and every record is what undoing the whole write set makes it |
| `Transactions.NoDeletesCompletes` | Lab4File/transaction_manager.cpp:84-126 | without deletes that is so whatever the files look like |
| `PageRollback.PageRestored` | Lab4File/transaction_manager.cpp:93-112 | rolling back deletes on the first page with room completes if and only if no other transaction has a lock on its first free slots; these get the records in the reverse order of deletion and nothing else changes; everything is restored if and only if each such slot was emptied by the transaction and held a record equal to the one it gets |
| `PageRollback.ScanOrderReverses` | Lab4File/transaction_manager.cpp:93-112 | rows of a full page deleted in slot order come back in the opposite order, restored if and only if that order reads the same both ways |
| `PageRollback.BackwardsRestores` | Lab4File/transaction_manager.cpp:93-112 | rows of a full page deleted from the last slot to the first are all restored |
| `Transactions.ReleasedLeavesNothing` | Lab4File/transaction_manager.cpp:57-76 | after the release loop no queue mentions the transaction, all others hold what they held, and all queues are sound |
| `BTreeNode.LowerBound` | src/index/ix_index_handle.cpp:21-35 | the first position whose key is not below the target |
| `BTreeNode.UpperBound` | src/index/ix_index_handle.cpp:43-57 | the first position from 1 on whose key is above the target |
| `BTreeNode.FindChild` | src/index/ix_index_handle.h:148-157 | the first slot of the parent that holds the child |
| `BTreeShape.OnePagePerKey` | src/index/ix_index_handle.cpp:86-96 | at each height at most one page's range takes a given key in |
| `BTreeIndex.Index.constructor` | src/index/ix_manager.h:57-134 | the initial three-page file is a sound, empty index |
| `BTreeIndex.Index.Open` | src/index/ix_index_handle.cpp:200-217 | an index opened from a file with a sound tree is a sound index |
| `BTreeIndex.HalfFull` | src/index/ix_index_handle.h:74-76 | in a sound index every page but the root has at least half of order keys, rounded up, none has more than order, and an inner root has two |
| `BTreeIndex.CreateIndex` | src/index/ix_manager.h:57-134 | an empty index whose order is computed from the lengths of the columns and exceeds 2, or an error exactly when they exceed 512 together |
| `BTreeIndex.PagesFit` | src/index/ix_manager.h:63-84 | with that order, after every tree operation, however it ends, and between its steps, the keys of each page end before its record ids and those end within the page |
| `BTreeIndex.Index.FindLeafPage` | src/index/ix_index_handle.cpp:227-248 | routing by separators ends in a leaf whose range takes the key in, although key 0 of inner nodes is not compared |
| `BTreeIndex.Index.GetValue` | src/index/ix_index_handle.cpp:258-273 | a lookup answers exactly what the abstract map holds |
| `BTreeIndex.Index.MaintainChildren` | src/index/ix_index_handle.cpp:776-784 | the parent pointers of exactly the node's children are redirected |
| `BTreeIndex.Index.Split` | src/index/ix_index_handle.cpp:282-318 | half of the entries, rounded down, stay and the rest move to a new page, leaf links and children's parents follow, nothing else changes |
| `BTreeIndex.Index.InsertIntoParent` | src/index/ix_index_handle.cpp:333-377 | hooking in a split-off half restores a sound tree with the same contents, through any number of further splits and a new root |
| `BTreeIndex.Index.InsertEntry` | src/index/ix_index_handle.cpp:385-410 | the abstract map gains the pair unless the key is there, the first insert of a key wins, and separators, parents, uniform depth, occupancy and the leaf ring stay right; a leaf that was not full is not split, at most one leaf is added and only if one was full; no page ever has more than order + 1 entries |
| `BTreeIndex.Index.MaintainParent` | src/index/ix_index_handle.cpp:728-745 | rewriting separators upwards until one is already right restores every separator |
| `BTreeIndex.Index.Redistribute` | src/index/ix_index_handle.cpp:539-562 | exactly one entry moves over from a neighbour, its last to the front or its first to the end, no other leaf changes, and occupancy and separators are restored with the same contents |
| `BTreeIndex.Index.Coalesce` | src/index/ix_index_handle.cpp:578-604 | merging two leaves keeps contents, order and ring; the tree is sound again unless the parent, not the root, falls below half |
| `BTreeIndex.Index.AfterMerge` | src/index/ix_index_handle.cpp:502-523 | a root with one child left gives way to it; the tree is sound if and only if the parent is the root or at least half full |
| `BTreeIndex.Index.CoalesceOrRedistribute` | src/index/ix_index_handle.cpp:450-494 | which of the ends is taken, as conditions on the pages before the call, and a sound tree in all but the two failing ones |
| `BTreeIndex.Index.DeleteEntry` | src/index/ix_index_handle.cpp:417-437 | exactly the key goes, one leaf fewer exactly when its leaf falls below half and fits into one page with its neighbour, no page has more than order + 1 entries, and the tree stays sound if and only if it was not the last key and no such merge leaves an inner node other than the root below half; if not, no choice of key ranges, leaf order and contents makes the pages a sound tree, and after an underflow nothing but that node's size is wrong |
| `BTreeRuns.DeleteLast` | src/index/ix_index_handle.cpp:502-523 | in an index of any order, deleting the only key drops the root, and the pages are no sound tree under any reading |
| `BTreeRuns.DeleteUnderflows` | src/index/ix_index_handle.cpp:450-494 | a sound three-level tree of order 3 with keys 1 to 8 in which deleting key 1 leaves an inner node below half, so that its pages are no sound tree under any reading |
| `BTreeIndex.MergeSafe` | src/index/ix_index_handle.cpp:578-604 | merging two neighbouring leaves of a parent keeps contents, key order, ring, separators and parents, with only the parent possibly too small |
| `BTreeIndex.UnderfullIsNoTree` | src/index/ix_index_handle.cpp:450-494 | pages with one inner node below half, otherwise sound, are no sound tree under any other key ranges, leaf order and contents |
| `BTreeLeaves.GoodInsert` | src/index/ix_index_handle.cpp:112-154 | putting a routed key into its leaf extends the contents by it and keeps order within and between leaves |
| `BTreeLeaves.GoodSplitLeaf` | src/index/ix_index_handle.cpp:282-318 | splitting a full leaf keeps contents, key order and ring, with the new half awaiting its parent |
| `BTreeDelete.NeighboursInRing` | src/index/ix_index_handle.cpp:466-474 | the neighbour taken from the leaf links is the sibling in the same parent |
| `BTreeScan.RingListsContents` | src/index/ix_index_handle.cpp:670-686 | following next_leaf from the first leaf lists every stored key once in ascending order with its value |
| `BTreeScan.Scan.Next` | src/index/ix_scan.cpp:17-29 | the cursor passes exactly one more entry, crossing to the next leaf when needed |
| `BTreeScan.ScanAll` | src/index/ix_scan.cpp:17-29 | a scan from leaf_begin to leaf_end ends and returns the value of every stored key once, in key order |
| `Plans.YieldMember` | src/execution/executor_nestedloop_join.h:108-150 | a plan whose conditions are placed yields exactly the row combinations of its tables that meet all of them |
| `Plans.YieldNoDup` | src/execution/executor_nestedloop_join.h:52-105 | and none twice |
| `Plans.CompareMeans` | src/execution/executor_seq_scan.h:104-136 | each of the six operators holds of exactly the orders of its operands that its sign names |
| `Plans.OperatorLaws` | src/execution/executor_seq_scan.h:121-136 | exactly one of less, equal and greater holds of two values, equality is sameness, less is transitive, and the other three operators follow from these |
| `Planner.PopConds` | src/optimizer/planner.cpp:44-59 | erasing while scanning splits the conditions into those taken and those left, in order |
| `Planner.TakenBag` | src/optimizer/planner.cpp:44-59 | nothing is lost or duplicated between the two |
| `Planner.PushPlaces` | src/optimizer/planner.cpp:61-102 | a condition between two joined tables lands at exactly one node, turned so that its left column is in the left subtree, and nothing else in the tree changes |
| `MakeOneRel.PopScan` | src/optimizer/planner.cpp:104-117 | the table's scan is found exactly when there is one, marked and noted as joined |
| `MakeOneRel.HandedOutPlaced` | src/optimizer/planner.cpp:147-163 | after the hand-out only conditions between two tables remain, and every scan holds only its own conditions if and only if two columns of one table are compared only on the first table |
| `MakeOneRel.RestIsCrossings` | src/optimizer/planner.cpp:147-163 | what the scans leave over is exactly the conditions between two tables, in their order |
| `MakeOneRel.JoinCond` | src/optimizer/planner.cpp:196-233 | each round of the loop keeps a tree of the marked scans and adds the condition exactly once, in all four cases, and a table it brings in comes in on the left |
| `MakeOneRel.Build` | src/optimizer/planner.cpp:142-249 | each FROM table is exactly one leaf, each condition at exactly one node, every join condition spans its node, and every scan condition is about its table if and only if the query has the supported shape; without join conditions the scans are joined with the first table innermost; otherwise the left table of the first join condition is the left input of the lowest join and every later table comes in on the left, by condition and then by FROM list |
| `MakeOneRel.PlanYieldsQuery` | src/optimizer/planner.cpp:142-249 | for every database such a plan yields the same multiset of rows as filtering the cross product |
| `Streams.RunIsYield` | src/execution/executor_nestedloop_join.h:48-105 | a run gets to its end if and only if no scan meets a foreign column and no join with tuples on its left has an empty right side, and then delivers exactly the plan's rows, left-major |
| `Queries.YieldInOrder` | src/execution/executor_nestedloop_join.h:72-92 | the rows of a plan come out sorted by the rows of its tables from left to right |
| `Executors.Executor.IsEnd` | src/execution/executor_nestedloop_join.h:48 | true exactly when nothing is left to deliver |
| `Executors.Executor.BeginTuple` | src/execution/executor_nestedloop_join.h:52-70 | the executor stands before the whole stream of its plan, or the error has occurred |
| `Executors.Executor.NextTuple` | src/execution/executor_nestedloop_join.h:72-92 | exactly one tuple is dropped, and the loops end |
| `Executors.Executor.Next` | src/execution/executor_nestedloop_join.h:94-105 | the first undelivered tuple |
| `Executors.Executor.Seek` | src/execution/executor_seq_scan.h:58-88 | a scan's cursor moves to the next row that meets the conditions |
| `Queries.RunMember` | src/execution/executor_nestedloop_join.h:48-150 | in a completed run a row combination is delivered if and only if it meets every condition of the plan, wherever the condition sits |
| `Queries.RunAnswers` | src/optimizer/planner.cpp:142-249 | a completed run delivers the filtered cross product, whatever the conditions and the database |
| `Queries.PlacedRuns` | src/execution/executor_nestedloop_join.h:57-66 | without foreign scan conditions a run completes if and only if no join meets an empty right side |
| `Queries.AnsweredRuns` | src/execution/executor_nestedloop_join.h:52-105 | the run of a query whose answer is not empty completes if and only if every scan holds only conditions of its own table |
| `Queries.CrossRuns` | src/optimizer/planner.cpp:234-247 | the plan of a query without conditions completes if and only if there is one table, the last is empty or none is |
| `Queries.EmptyRightFails` | src/execution/executor_nestedloop_join.h:57-66 | the cross product with an empty first table is empty, but the plan built for it fails |
| `Queries.ForeignConditionFails` | src/optimizer/planner.cpp:51 | the plan built for a comparison of two columns of the second table completes if and only if that table is empty |
| `Queries.Drain` | src/execution/executor_nestedloop_join.h:52-105 | the collecting loop returns the whole stream or the error |
| `Queries.Select` | src/optimizer/planner.cpp:142-249 | from conditions to rows: the filtered cross product in the order of the join tree, or an error exactly when the run cannot complete; with a non-empty answer, exactly when two columns of a table other than the first are compared |
| `Queries.SelectCross` | src/optimizer/planner.cpp:142-249 | a select without a WHERE clause returns the cross product, or an error exactly when an earlier table is empty and the last is not |
| `Queries.SelectForeign` | src/optimizer/planner.cpp:44-59 | a select that compares two columns of its second table fails exactly when that table has rows |
| `Selections.SelectOne` | src/execution/executor_seq_scan.h:58-142 | a select from one table never fails and returns each row that meets its conditions once, in table order, and no other |
| `Selections.SelectWhere` | src/execution/executor_seq_scan.h:104-142 | a select with column, operator and value returns a row if and only if the value stored in it under that column compares so |
| `Selections.SelectTwo` | src/optimizer/planner.cpp:142-249 | a select from two tables with join conditions, of the supported shape, fails if and only if the left table of the first one has a row that meets the conditions on that table alone and the right one has none; otherwise it returns exactly the pairs that meet all |
| `Selections.SelectJoin` | src/execution/executor_nestedloop_join.h:52-150 | a select with one join condition fails if and only if its left table has rows and its right one none; otherwise a pair of rows is returned if and only if the two stored values compare so |
| `Replacer.LruReplacer.Victim` | src/replacer/lru_replacer.cpp:22-48 | the last of the list, which was released before all others on it, or none exactly when nothing is listed |
| `Replacer.LruReplacer.Pin` | src/replacer/lru_replacer.cpp:54-65 | the frame is cut out of the list, the others keep their order |
| `Replacer.LruReplacer.Unpin` | src/replacer/lru_replacer.cpp:71-88 | the frame becomes the most recent unless already listed |
| `Frames.FrameStates` | src/storage/buffer_pool_manager.cpp:18-193 | each frame is free, pinned, evictable or lost to a page that could not be read, and only one of these; with an empty free list the replacer lists exactly the frames neither pinned nor lost |
| `Frames.NothingReverted` | src/storage/buffer_pool_manager.cpp:40-54 | while every page written and not yet released as dirty is pinned, giving a frame to another page loses no contents, and this stays so |
| `BufferPool.Pool.FindVictim` | src/storage/buffer_pool_manager.cpp:18-32 | a free frame first, else the least recently released; none exactly when every frame is pinned or lost |
| `BufferPool.Pool.VictimIsOldest` | src/storage/buffer_pool_manager.cpp:18-32 | after any calls, with the free list empty, the frame to be taken was released before every other that is neither pinned nor lost |
| `BufferPool.Pool.UpdatePage` | src/storage/buffer_pool_manager.cpp:40-54 | the frame's page is written if dirty and unmapped, the new one mapped with zeroed contents |
| `BufferPool.Pool.FetchPage` | src/storage/buffer_pool_manager.cpp:63-89 | the pool stays sound in every outcome and only the victim's frame changes; a fetched page has the contents last written to its id unless it was evicted after a release as clean; no frame and read error each have their exact condition on the state before the call, and numbers stay in order exactly when an error is not for one never handed out; the free list loses at most its head, the replacer's list only the frame concerned, in the same order, and with no free frame the page evicted is the one released longest ago |
| `BufferPool.FetchNeverWritten` | src/storage/buffer_pool_manager.cpp:63-89 | a page created, released as clean and evicted cannot be fetched, and the error leaves a one-frame pool without a frame for any page though nothing is pinned |
| `BufferPool.FetchNeverAllocated` | src/storage/buffer_pool_manager.cpp:63-167 | after fetching a number not yet handed out, the new page with that number is in two frames and the table knows only the first |
| `BufferPool.Pool.UnpinPage` | src/storage/buffer_pool_manager.cpp:97-119 | false exactly for a page not resident or not pinned; otherwise one pin less, most recent in the list at zero, and no write is at risk unless a written page gets its last release as clean |
| `BufferPool.CleanReleaseLoses` | src/storage/buffer_pool_manager.cpp:97-119 | whatever is written to a page, after a last release as clean and an eviction it is fetched with what its file has |
| `BufferPool.Pool.FlushPage` | src/storage/buffer_pool_manager.cpp:126-143 | the disk has the page's current contents and the page is not dirty any more, nothing else changes; true exactly for a resident page |
| `BufferPool.Pool.NewPage` | src/storage/buffer_pool_manager.cpp:150-167 | the next number of the file, zeroed and pinned; none exactly when every frame is pinned or lost; the pool is sound afterwards if and only if the number was not resident in another frame, which otherwise keeps the mapping beside the new one; while numbers are in order it is new to table and disk; free list, replacer's list and choice of the frame as for a fetch |
| `BufferPool.Pool.DeletePage` | src/storage/buffer_pool_manager.cpp:174-193 | false exactly for a pinned page; otherwise not resident, its contents on disk if they were dirty, its frame blank and last in the free list, and nothing else changes |
| `BufferPool.Pool.FlushAll` | src/storage/buffer_pool_manager.cpp:199-211 | the disk agrees with the flat store on every page of the file, no page of it is dirty any more, and no other page changes |
| `BufferPool.Pool.constructor` | src/storage/buffer_pool_manager.h:37-54 | all frames are free, in order |
| `Bitmap.SetApart` | src/record/bitmap.h:25 | setting a bit of the byte array changes that bit and no other |
| `Bitmap.ResetApart` | src/record/bitmap.h:28 | clearing a bit changes that bit and no other |
| `Bitmap.NextBit` | src/record/bitmap.h:41-48 | the first position after the current one with the wanted bit, or the limit |
| `RecordFiles.RecordFile.CreatePageHandle` | src/record/rm_file_handle.cpp:157-193 | a page with room at the head of the list; records unchanged |
| `RecordFiles.RecordFile.InsertRecord` | src/record/rm_file_handle.cpp:45-73 | the map gains the record at the first free slot of the first page with room, the slot and headers of the search over values, and no other slot's bytes change; when the lock request throws, no record changes and the list of pages with room is still exact |
| `RecordFiles.RecordFile.DeleteRecord` | src/record/rm_file_handle.cpp:87-107 | the record goes but the bytes of every slot stay, a page that was full joins the list at its head, and the file is consistent afterwards if and only if the slot was live |
| `RecordFiles.DeleteTwice` | src/record/rm_file_handle.cpp:87-107 | in any file, a record inserted and deleted twice leaves pages that are no record file, though both calls succeed |
| `RecordFiles.RecordFile.UpdateRecord` | src/record/rm_file_handle.cpp:115-131 | the slot gets the bytes, live or not, no other slot changes, and of the records exactly the live one does |
| `RecordFiles.RecordFile.GetRecord` | src/record/rm_file_handle.cpp:19-37 | the bytes in the slot, which are the record of a live rid |
| `FreeSlots.ChainPush` | src/record/rm_file_handle.cpp:198-205 | a page released to the list keeps it finite, free of repeats and exactly the pages with room |
| `FreeSlots.SlotIsFree` | src/record/rm_file_handle.cpp:45-55 | the search of a sound file ends in a slot that exists and is free, on a page with room |
| `FreeSlots.FilledSound` | src/record/rm_file_handle.cpp:45-73 | filling that slot keeps page counts and the list exact |
| `FreeSlots.ClearedSound` | src/record/rm_file_handle.cpp:87-107 | so does deleting a live record |
| `FreeSlots.DeleteThenInsert` | src/record/rm_file_handle.cpp:45-107 | after a delete the search finds the same slot if and only if the page was full, or was first on the list and had no free slot before it |
| `RecordFiles.ValidIsSound` | src/record/rm_file_handle.cpp:157-205 | the headers of a record file count its live slots and list exactly the pages with room |
| `RecordFiles.PutBack` | src/record/rm_file_handle.cpp:45-107 | a record deleted and inserted again gets its own rid back if and only if its page was full, or was first on the list and had no free slot before it |
| `RecordFiles.CreateFile` | src/record/rm_manager.h:34-55 | an empty file with at least 7 slots a page, or an error exactly for record sizes outside 1 to 512 |
| `RecordScan.RmScan.constructor` | src/record/rm_scan.cpp:18-23 | the scan stands before all records of the file |
| `RecordScan.RmScan.Next` | src/record/rm_scan.cpp:28-42 | exactly one record is passed, empty pages are skipped |
| `RecordScan.ScanListsFile` | src/record/rm_scan.cpp:18-50 | the visiting order lists every live rid once, by page and slot |
| `RecordScan.ScanAll` | src/record/rm_scan.cpp:18-50 | a scan of an unchanging file ends having visited them all in that order |
| `Layout.EnoughSlots` | src/record/rm_manager.h:46-49 | for every record size 1 to 512 a page has at least 7 slots and a bit for each |
| `Layout.MostSlots` | src/record/rm_manager.h:46-49 | up to the number computed, slots fit as the code reckons; two more never do, and one more if and only if its bits are among those the division rounds away |
| `Layout.OneSlotShort` | src/record/rm_manager.h:46-49 | with one-byte records one more slot would have fitted |
| `Layout.RecordPageFits` | src/record/rm_file_handle.h:31-40 | page header, bitmap and slots follow each other without overlap inside 4096 bytes |
| `Layout.IndexNodeFits` | src/index/ix_manager.h:76-84 | for every key length up to 512 the order exceeds 2, a node that overflows by one entry fits its page, and by two it would not |

## Left out

- Latches: each latched method is one atomic step, except that commit and abort release locks one at a time and undo one record at a time.
- The write set: nothing in the code appends to it; the repository's README.md (line 411) leaves that to the storage and execution layers, so record-write steps log their entry.
- Isolation.EveryRunIsSerializable: a record insert finds its slot and locks it in one step, and scans read bitmaps without locks, so phantoms are outside the theorem.
- Rollback.UndoOfDelete: the page the slot is on is any with a free slot, as the step system has no file headers; `Placement.UndoFindsSlot` has the slot the file finds.
- Rollback.AbortRestores: the slots concerned are known only from the run; `Placement.HomeRestores` and `PageRollback.PageRestored` have conditions on the files.
- Endings.AbortRuns: the slots found are taken to be vacant, which `Placement.FoundIsVacant` gives as long as the headers fit the records.
- PageRollback.PageRestored: deletes of one page, uninterrupted; write sets that mix pages or undo inserts and deletes together are covered by `Transactions.TransactionManager.Abort` only.
- Placement.FilesStaySound: a search that finds no free bit, which needs a file whose counts are already wrong, goes past the page's slots in the code; here that place is a slot like any other.
- BTreeIndex.Index.Redistribute: leaf pages only; the branch for inner nodes is reached only with page 0 as the sibling.
- BTreeIndex.Index.Coalesce: leaf pages only, for the same reason.
- BTreeIndex.Index.CoalesceOrRedistribute: leaf pages only, for the same reason.
- BTreeIndex.Index.DeleteEntry: past an inner underflow or an emptied tree nothing is claimed, because the code then uses page 0 as a sibling or an invalid root.
- BTreeIndex.Index.InsertEntry: the tree is over a plain map of pages; a changed leaf that is unpinned as clean (src/index/ix_index_handle.cpp:408) could be lost by eviction, so the tree is not composed with the buffer pool.
- Index range bounds through `lower_bound` and `upper_bound` of the whole index, whose node search starts at 1.
- Keys, column values and record bytes: fixed-length values under one total order are integers or sequences of integers; NaN, signed zero and type checks are not modelled.
- MakeOneRel.Build: FROM tables are distinct and conditions are over them, as the analyser leaves them; an index scan plan is a filtered scan because its executor has no body; plan nodes are values, so sharing of nodes is not modelled.
- Selections.SelectTwo: two tables, and no comparison of two columns of the second one; in general the condition for an error is over the returned plan (`Queries.Select`).
- BufferPool.Pool.FetchPage: page numbers are not negative; the disk is a map with file lengths, and pages inside a file that were never written read as zeros.
- RecordFiles.RecordFile.InsertRecord: the pin kept by a refused insert and a pool without a free frame are not modelled.
- Sort, projection, insert, update and delete executors and index upkeep in them.
- Parser, analyser, catalog, log and recovery, disk system calls, server and client.
