# Open Outliner: a verified model of the outline core

Open Outliner is a collaborative outliner. Every client edits a replicated
document, the server stores the updates, projects the merged document into a
relational table, compacts and garbage-collects it. This project models the
parts on which correctness hangs and proves what they promise.

`dafny verify dfyconfig.toml` checks everything.

## What is modelled

**Outline** (`TreeTheory`, `EffectiveTree`, `Siblings`, `OutlineModel`,
`OutlineIndex`, `OutlineMoves`, `OutlineMerge`, `OutlineDoc`, `CommandWrites`,
`PreOrder`, `VisibleRows`). A merged document is a map from item ids to placements: parent,
rank, deleted flag, text, completion. Concurrent moves can leave cycles, missing
parents and second roots; the effective tree is the one interpretation all
readers share. `OutlineDoc.Document` is the live document with its cached index
and the structural commands. Every command has three statements: the method's
contract says which branch it takes, a lemma of `CommandWrites` says on any
document which fields end with which values, and another lemma says what that
means for the outline the user sees.

**Repair and projection** (`CycleRepair`, `RepairOrder`, `Materialize`,
`Projection`, `UpsertOrder`). Cycle repair of schema v1 and what the listing order
decides in it, the memoised tombstone rule, projected
rows, and the change-guarded upsert.

**Storage** (`Updates`, `DocumentStore`, `CollectedRows`). One document's rows, generations, table
and lock as a transition system. A step is one committed transaction, one
snapshot load, or one moment at which the lock holder reads. A merged document is
a set of operations, merging is union, and what the operations say is the
function parameter `view`. `DocumentStore.Database` performs the same steps on
stored state; its `Valid` is the invariant of the transition system, and projecting,
compacting and collecting a document are compositions of its methods.

**Saving edits** (`Receipts`, `PendingSync`). Tabs, the pending store, the network
and the server: requests and replies can be late, repeated or lost, tabs close
anywhere. The classes of `PendingSync` keep that invariant on stored state.

**Acknowledgement and collection** (`ReplicaLedger`, `Connections`, `GcPasses`).
The replica ledger as a protocol with a record of what each replica has received,
the registry and hooks that feed it, and the collection passes on the table.

**Duplicate tabs** (`ReplicaDuel`), **undo and redo** (`History`, `HistoryRows`),
**delete records** (`DeleteRecords`), **export and import** (`Portable`,
`PortableImport`, `PortableRoundTrip`).

Ids stand for strings through their total order, ranks for points of a dense
order, clocks for numbers. An exception of the original is the outcome `Threw`, a
missing optional value is `None`. Clocks, fresh ids, the choice of a rank between
two others and the order of messages are parameters or left open.

## What assumptions the main results need

- Placement claims (`Ready`, `CanInsert`): nothing is recovered, the item is
  shown, a new id is not referenced by anyone. The commands' contracts themselves
  have no such condition.
- Table claims: the root is in the projected document. `FilterDropsNothing` says
  exactly when the filter matters.
- Ledger safety: the server's clock does not go back, what arrives at the server
  reaches every replica connected at that moment, a replica id has one live
  connection.
- Undo claims for whole sessions are about local sessions; with other writers the
  claim is register by register (`RegistersWritten`, `OnlyChangedRegisters`).

## Where the code does not do what it or its documentation says

- `splitItem` writes the truncation before the insert. On a rank tie behind the
  item the insert throws inside the transaction, the truncation stays and the
  text after the caret is gone (`SplitCanLoseText`; exact condition in
  `SplitKeepsText`).
- `outdent` reads the raw parent. When the parent is not a live child of its own
  raw parent the list index is -1 and the command fails with a type error
  (`OutdentCanFail`; exact condition in `OutdentFails`).
- `insertItem`, `outdent`, `moveItem` and `moveWithinSiblings` never open space
  between equal ranks: where the target gap lies between two siblings of equal
  rank they throw. The contracts say exactly when.
- The comment on `insertItem` says that an item without a predecessor goes to the
  end; the code puts it first, and so does `moveItem`.
- "Saved on server" can be announced while an edit is still queued for the
  pending store (`SavedCanBeEarly`; exact condition in `SavedOnServerMeans`; what
  the tab can check itself in `SavedOnServerWhenQuiet`).
- The duel's interface promises at most one id change per tab. That holds in every
  run in which no tab opens under an id that two live tabs hold, one of which has
  changed its id already (`RenewsAtMostOnce`), and as soon as one does, deliveries
  can break it (`SafeExactlyWhenCareful`; `OpeningTabsRenewAgain` is such a run).
- Delete and restore records are created on first use. Two replicas that create
  them at the same time can merge to a live item although a delete was never
  acknowledged (`LazyMapsCanLoseADelete`; exact condition in
  `OpenDeleteSurvivesMerge`).
- Cycle repair is meant to be the same on every replica, but on equal stamps it
  follows the listing order (`RepairDependsOnOrder`). The freed items are
  independent of the order if and only if every cycle has a unique youngest move
  (`FreedIgnoresOrder`), the whole plan if and only if nothing is left to choose
  (`PlanIgnoresOrder`).
- A collected row can be inserted again by a pass that loaded the document before
  the key was removed (`CollectedRowComesBack`; exact condition in
  `CollectedRowReturns`).
- Registering a live socket under another session leaves it in the index of the
  first one (`RegisteredTwice`; exact condition in
  `Connections.ConnectionRegistry.Register`).
- ADR-0013 describes the source revision by stored update rows; the code and
  ADR-0022 use a generation that every committed change of the rows advances. The
  model follows the code.

## Model

| member | source | states |
|---|---|---|
| `EffectiveTree.DeriveEffectiveTree` | packages/shared/src/effective-tree.ts:8-59 | the three passes together give exactly the interpretation of the merged placements: effective parents, recovered ids and deleted ids |
| `EffectiveTree.AttachOrphans` | packages/shared/src/effective-tree.ts:10-21 | after the first pass exactly the nodes with a missing or sentinel parent hang under the root and are marked recovered |
| `EffectiveTree.BreakCycles` | packages/shared/src/effective-tree.ts:22-39 | after the second pass the smallest id of every raw cycle, and nothing else, has been freed as well |
| `EffectiveTree.SettleFrom` | packages/shared/src/effective-tree.ts:22-39 | one walk settles its nodes for good: a loop it runs into loses its smallest member, a walk into settled nodes loses nothing |
| `EffectiveTree.InheritDeletion` | packages/shared/src/effective-tree.ts:40-57 | after the third pass a node is deleted exactly when it or an effective ancestor below the root carries a tombstone |
| `EffectiveTree.EffectiveTreeIsRooted` | packages/shared/src/effective-tree.ts:8-39 | whatever was merged (cycles, self-loops, orphans, second roots), every node below the root reaches the root by finitely many effective parent steps |
| `EffectiveTree.OnlyFaultsMove` | packages/shared/src/effective-tree.ts:15-39 | the effective parent differs from the raw one only for orphans, second roots and the smallest id of a cycle, and exactly those are recovered |
| `EffectiveTree.RecoveredMeans` | packages/shared/src/effective-tree.ts:10-39 | in raw placements: recovered are, apart from the root, exactly the nodes with a missing or sentinel parent and the smallest id of each cycle of the others; a recovered node hangs under the root, every other one under its raw parent |
| `EffectiveTree.OneBreakPerCycle` | packages/shared/src/effective-tree.ts:22-39 | every raw cycle loses exactly one member |
| `EffectiveTree.OrderIndependent` | packages/shared/src/effective-tree.ts:8-59 | every permutation of the merged nodes gives the same parents, recovered ids and deleted ids |
| `EffectiveTree.DeletedIsInherited` | packages/shared/src/effective-tree.ts:40-57 | an item is deleted exactly when it is tombstoned or its effective parent is deleted |
| `EffectiveTree.DeletedMeans` | packages/shared/src/effective-tree.ts:40-57 | an item below the root is deleted exactly when some number of effective parent steps, all of them below the root, meets a raw tombstone |
| `EffectiveTree.NothingRecovered` | packages/shared/src/effective-tree.ts:15-39 | nothing is recovered exactly when the raw placements already form a tree, and then they stand |
| `Siblings.SortSiblings` | packages/shared/src/ordering.ts:17-28 | sorting gives the one read order of the sibling set by rank, ties broken by id |
| `Siblings.SortedUnique` | packages/shared/src/ordering.ts:17-23 | a sibling list in read order is determined by its members, so every reader shows the same list |
| `Siblings.RankBetween` | packages/shared/src/fractional-index.ts:58-71 | a rank strictly between the bounds, or an exception exactly when the bounds tie or are crossed |
| `OutlineIndex.BuildIndex` | packages/crdt/src/outline.ts:103-117 | grouping and sorting the derived tree gives, for every parent, its live children in read order, and no empty list |
| `OutlineIndex.ListedIsChildren` | packages/crdt/src/outline.ts:119-121 | the list held for a parent is its live children; an absent list means there are none |
| `OutlineIndex.OutlineIgnoresText` | packages/crdt/src/outline.ts:94-97 | documents that differ in text and completion only have the same effective parents, children lists, live items and recovered items |
| `OutlineDoc.Document.OutlineIndex` | packages/crdt/src/outline.ts:85-118 | every read, inside a transaction or outside, equals a fresh derivation from the document |
| `OutlineDoc.Document.End` | packages/crdt/src/outline.ts:94-97 | the index is marked dirty exactly when the transaction changed more than text |
| `OutlineDoc.Document.WriteText` | packages/crdt/src/yjs-node.ts:207-220 | a text edit changes one text and leaves the cached index valid and clean |
| `OutlineDoc.Document.WriteMove` | packages/crdt/src/yjs-node.ts:140-162 | one write replaces one item's placement, creating the item if needed; the root keeps its place; cached reads stay coherent |
| `OutlineDoc.Document.WriteDeleted` | packages/crdt/src/yjs-node.ts:165-204 | one write sets one item's deleted register; the root is never deleted |
| `OutlineDoc.Document.WriteCompleted` | packages/crdt/src/yjs-node.ts:223-238 | a field write keeps the outline and dirties the index |
| `OutlineDoc.Document.ApplyUpdate` | packages/crdt/src/outline.ts:94-97 | a merged update, structural or text only, keeps cached reads coherent |
| `OutlineDoc.Document.GetChildren` | packages/crdt/src/outline.ts:119-121 | the live children of any parent in read order, from the cached or the rebuilt index |
| `OutlineModel.ReplacedEdges` | packages/crdt/src/yjs-node.ts:140-162 | placing an item under a shown host outside its own subtree keeps the outline free of faults and changes one effective parent |
| `OutlineModel.ReplacedLive` | packages/crdt/src/yjs-node.ts:140-162 | such a write hides nothing and reveals nothing |
| `OutlineModel.ReplacedLists` | packages/crdt/src/yjs-node.ts:140-162 | a rank that fits a gap takes the item out of its list and into exactly that gap; every other list stays |
| `OutlineDoc.Document.Indent` | packages/crdt/src/outline.ts:179-192 | writes, or does not write, exactly as the command's branches say, with a rank behind the new siblings |
| `OutlineDoc.IndentMeets` | packages/crdt/src/outline.ts:179-192 | the item becomes the last child of its previous sibling; nothing happens exactly when there is none; nothing is recovered and no other list or parent changes |
| `CommandWrites.IndentWrites` | packages/crdt/src/outline.ts:179-192 | on any document: nothing for a missing, hidden or first item; otherwise its parent is the previous sibling, its rank lies behind the last child there, and no other field of any item changes |
| `OutlineDoc.Document.Outdent` | packages/crdt/src/outline.ts:195-215 | writes, refuses, throws on a rank tie or fails with a type error exactly as the branches say |
| `OutlineDoc.OutdentMeets` | packages/crdt/src/outline.ts:195-215 | the item lands right after its parent; nothing happens exactly at top level; an exception exactly on a rank tie behind the parent, with the document unchanged; never a type error |
| `CommandWrites.OutdentWrites` | packages/crdt/src/outline.ts:195-215 | on any document: nothing without a level above, the type error when the parent is not listed, an exception on equal ranks behind the parent; otherwise the parent is the grandparent, the rank lies between the parent and its next sibling, and nothing else changes |
| `OutlineDoc.OutdentFails` | packages/crdt/src/outline.ts:208-210 | on any document, the type error comes exactly when there is a level above and the parent is hidden or recovered; then nothing is written |
| `OutlineDoc.OutdentCanFail` | packages/crdt/src/outline.ts:208-210 | a live item under a recovered parent, without any rank tie: outdenting it fails |
| `OutlineDoc.Document.MoveWithinSiblings` | packages/crdt/src/outline.ts:218-243 | writes, refuses or throws exactly as the branches say |
| `OutlineDoc.SwapMeets` | packages/crdt/src/outline.ts:218-243 | the item and its neighbour swap places and nothing else moves; nothing happens exactly at the boundary; an exception exactly on a rank tie beyond the neighbour |
| `CommandWrites.SwapWrites` | packages/crdt/src/outline.ts:218-243 | on any document: only the rank changes, to one beyond the neighbour and before the one after it; an exception exactly when those two ranks are equal |
| `OutlineDoc.Document.IsDescendantOf` | packages/crdt/src/outline.ts:268-281 | answers whether some number of raw parent steps meets the ancestor, and ends on cyclic placements too |
| `OutlineDoc.Document.MoveItem` | packages/crdt/src/outline.ts:246-265 | writes, refuses or throws exactly as the branches say |
| `OutlineDoc.DropMeets` | packages/crdt/src/outline.ts:246-265 | a drop is refused exactly into the own subtree; otherwise the item lands right after the given sibling, or first; an exception exactly on a rank tie at the gap |
| `CommandWrites.DropWrites` | packages/crdt/src/outline.ts:246-265 | on any document: refused exactly for a missing item or a target on or below it; otherwise parent and rank of the gap asked for, or an exception exactly on equal ranks there, and nothing else changes |
| `CommandWrites.DropIsShown` | packages/crdt/src/outline.ts:246-265 | the moved item is shown right behind the given sibling, or in front of all others, and has left every other list |
| `OutlineDoc.Document.InsertItem` | packages/crdt/src/outline.ts:162-176 | creates the item in the gap after the given sibling, or throws on a tie without writing |
| `OutlineDoc.InsertMeets` | packages/crdt/src/outline.ts:162-176 | a fresh, unreferenced item is shown right after the given sibling, or first; no other item or list changes |
| `CommandWrites.InsertWrites` | packages/crdt/src/outline.ts:162-176 | on any document: one live, open, empty item under the given parent at a rank of the gap asked for (an item that is there already is placed there instead), or an exception and no write exactly on equal ranks there |
| `CommandWrites.InsertIsShown` | packages/crdt/src/outline.ts:162-176 | the created item is shown right behind the given sibling, or in front of all others |
| `OutlineMoves.DeleteLands` | packages/crdt/src/outline.ts:284-287 | deleting an item without live children removes it from its list and changes nothing else |
| `OutlineDoc.Document.SplitItem` | packages/crdt/src/outline.ts:318-339 | truncates, inserts and fills in this order inside one transaction; an exception leaves the truncation written |
| `OutlineDoc.SplitMeets` | packages/crdt/src/outline.ts:318-339 | without a tie the text after the caret becomes the next sibling and nothing else changes; on a tie only the truncation remains |
| `CommandWrites.SplitWrites` | packages/crdt/src/outline.ts:318-339 | on any document, for a fresh id: the item keeps the text before the caret, the new one gets the text behind it, the same parent and a rank of the gap behind the item; on equal ranks there the cut is all that is written |
| `OutlineDoc.SplitKeepsText` | packages/crdt/src/outline.ts:318-339 | on any document the two texts together equal the original exactly when no rank tie stands behind the item or nothing stood behind the caret |
| `OutlineDoc.SplitCanLoseText` | packages/crdt/src/outline.ts:318-339 | two siblings of equal rank: splitting "ab" after the first letter leaves "a" and no new item |
| `OutlineDoc.Document.MergeIntoPrevious` | packages/crdt/src/outline.ts:378-402 | joins the texts, re-parents the live children behind the target's own one write at a time and deletes the item; refuses when one of the two is missing |
| `OutlineMerge.MergeMeets` | packages/crdt/src/outline.ts:378-402 | merging into an item outside the own subtree keeps every other live item live, appends the moved children in order and concatenates the texts |
| `CommandWrites.MergeWrites` | packages/crdt/src/outline.ts:378-402 | on any document, field by field: the target has both texts, each live child has the target as parent and a rank behind its last child and in their order, the merged item is deleted, and nothing else changes |
| `OutlineMerge.AdoptAllLands` | packages/crdt/src/outline.ts:388-398 | after each adoption the tree is free of faults, shows the same items, and the adopted children follow the target's own in order |
| `PreOrder.Traverse` | packages/crdt/src/outline.ts:124-141 | the explicit stack lists exactly the rows of the recursive pre-order listing |
| `PreOrder.RowsInOrder` | packages/crdt/src/outline.ts:416-434 | any two rows stand in pre-order and are different |
| `VisibleRows.VisibleRowsOf` | packages/crdt/src/outline.ts:416-434 | the traversal terminates and yields the rows, depths and recovered marks of the specification |
| `VisibleRows.FlattenVisible` | packages/crdt/src/outline.ts:124-141 | the caret order is the order of the visible rows |
| `VisibleRows.RowsAreVisible` | packages/crdt/src/outline.ts:416-434 | the rows are exactly the live items below the top with nothing collapsed in between: each once, at its effective depth, marked when recovered |
| `VisibleRows.RowsInReadOrder` | packages/crdt/src/outline.ts:416-434 | ancestors come before descendants and branches follow the (rank, id) order of their siblings; no row lies inside the subtree of a later one |
| `VisibleRows.WholeOutlineIsListed` | packages/crdt/src/outline.ts:416-434 | with nothing collapsed, an item has a row exactly when it is live: when no number of effective parent steps below the root meets a raw tombstone |
| `VisibleRows.MergeIntoRowAbove` | packages/crdt/src/outline.ts:378-402 | merging any visible row into the row right above it keeps the promise of the merge |
| `CycleRepair.DetectCycles` | packages/shared/src/cycle.ts:68-102 | returns every cycle of the parent graph exactly once, written out along the parents from the member where the first-listed node that leads into it enters, and nothing else |
| `CycleRepair.RepairForCycle` | packages/shared/src/cycle.ts:110-146 | frees a youngest member of the cycle, the first such in the list, under the root; its stamp is ticked from the greater of the clock and the youngest stamp, its rank is behind all children of the root |
| `CycleRepair.LaterMeans` | packages/shared/src/hlc.ts:20-30 | one stamp is later than another exactly by wall clock, then counter, then replica, and two that are not later than each other are equal |
| `CycleRepair.ComputeCycleRepairs` | packages/shared/src/cycle.ts:157-169 | one repair per cycle under the first root, none exactly when there is no root or no cycle; the freed items and their new parent are the plan that the listing alone decides |
| `CycleRepair.AppliedMeans` | packages/shared/src/cycle.ts:127-146 | a freed item ends with the parent, rank and stamp of its last repair and every other node stands |
| `CycleRepair.OneRoundSettles` | packages/shared/src/cycle.ts:148-156 | applying one round of repairs leaves no cycle |
| `CycleRepair.SecondRoundIsEmpty` | packages/shared/src/cycle.ts:148-156 | run again on the repaired nodes, in any order and by any replica, the computation returns no repairs |
| `RepairOrder.FreedIgnoresOrder` | packages/shared/src/cycle.ts:117-125 | all listings of the same nodes free the same items if and only if every cycle has a unique youngest move |
| `RepairOrder.PlanIgnoresOrder` | packages/shared/src/cycle.ts:157-169 | all listings lead to the same items under the same parent if and only if there is no cycle, or no root, or one root and a unique youngest move on every cycle |
| `RepairOrder.TieFreesTheFirstListed` | packages/shared/src/cycle.ts:117-125 | two nodes under each other with equal stamps: whichever is listed first is freed, the other stays |
| `RepairOrder.RepairDependsOnOrder` | packages/shared/src/cycle.ts:117-125 | three concrete nodes and two listings of them with different plans |
| `Materialize.ComputeEffectiveDeleted` | packages/server/src/crdt/materialize.ts:36-61 | the memoised recursion says, for every item, whether some number of raw parent steps meets a tombstone, on cyclic placements too |
| `Materialize.RulesAgree` | packages/server/src/crdt/materialize.ts:84-86 | on placements without faults this rule and the derived tree delete the same items below the root exactly when the root is live or nothing below it is |
| `Materialize.RepairRoundSettles` | packages/server/src/crdt/projector.ts:113-125 | with a live root and no other writer, the projector emits repairs once and then finds no cycle among the live items |
| `Materialize.RepairedMeans` | packages/server/src/crdt/projector.ts:113-125 | a repaired item ends with the placement of its last repair; deleted flags and all other items stand |
| `Projection.ProjectSnapshots` | packages/server/src/crdt/materialize.ts:71-102 | each projected row has the effective parent (none for the root), its fields, and the inherited deleted flag |
| `Projection.FilterDropsNothing` | packages/server/src/crdt/projector.ts:142-144 | the orphan filter drops no row exactly when the root is in the document or the document is empty |
| `Projection.ProjectionIsExact` | packages/server/src/crdt/projector.ts:134-158 | with the root present, a pass makes the live table rows exactly the live items with their projected fields, whatever stood in the table before |
| `Projection.ProjectionKeepsParents` | packages/server/src/crdt/projector.ts:142-148 | with the root present, a pass keeps every row's parent row present |
| `Projection.ProjectionIsIdempotent` | packages/server/src/db/items-repo.ts:119-166 | projecting the same rows again changes nothing, versions and tombstone times included |
| `Projection.ProjectionTouchesOnlyChanges` | packages/server/src/db/items-repo.ts:142-165 | versions move by one exactly when a row changes; a row that stays deleted keeps its first tombstone time |
| `Projection.PassWrites` | packages/server/src/db/items-repo.ts:126-166 | whatever the table held, every upserted row, tombstones included, has the parent, rank, text and completion projected for it and is deleted exactly when projected so; a new row has version 1 and is deleted as of now or not at all |
| `Projection.PassLeaves` | packages/server/src/crdt/projector.ts:150-163 | a row the document no longer has keeps parent, rank, text, completion and its first tombstone time, or is tombstoned now; a skipped row stays as it was; no row comes from nowhere |
| `Projection.PassShows` | packages/server/src/crdt/projector.ts:134-148 | with the root present the row of every item, deleted or not, has its effective parent and its rank, text and completion, and is deleted exactly when the item is |
| `UpsertOrder.TopologicalOrder` | packages/server/src/crdt/projector.ts:77-97 | every row once; a row's parent before the row whenever the parents form no cycle |
| `DocumentStore.StepHolds` | packages/server/src/crdt/projector.ts:104-174 | every append, load, commit, compaction and collection step keeps the whole invariant |
| `DocumentStore.ReachableStates` | packages/server/src/crdt/projector.ts:128-174 | in every interleaving nothing committed is lost, a positive generation has a row, the projected generation is behind or equal and never goes back, and the live rows are exactly the live items of that generation |
| `DocumentStore.EqualGenerationsMeanCurrent` | packages/server/src/crdt/projector.ts:128-131 | equal generations mean that the table shows the merged document as it is now |
| `DocumentStore.UndisturbedPassCatchesUp` | packages/server/src/crdt/projector.ts:104-174 | a pass that nobody disturbs leaves equal generations and an exact table |
| `DocumentStore.Sweep` | packages/server/src/crdt/projector.ts:181-196 | after a sweep every document whose root is there has equal generations and an exact table; the count is the number of documents whose projected generation advanced |
| `DocumentStore.RunGrows` | packages/server/src/crdt/yjs-store.ts:88-109 | generations, the committed operations and the history of merged states only grow |
| `DocumentStore.CompactionLosesNothing` | packages/server/src/jobs/compaction.ts:61-96 | compaction keeps the merged document and every row appended since it read, and advances the generation by one |
| `DocumentStore.CollectedRowReturns` | packages/server/src/crdt/gc-keys.ts:13-33 | a collected row comes back exactly through a pass that still has the item in its snapshot and advances the projection; such a snapshot was read before the key was removed |
| `CollectedRows.CollectedRowComesBack` | packages/server/src/crdt/projector.ts:128-174 | a whole run with a concrete document: the row is collected at generation 3, and a pass that loaded at generation 2 puts it back |
| `DocumentStore.Database.AppendUpdate` | packages/server/src/crdt/yjs-store.ts:88-109 | the update joins the merged document and nothing leaves it; the table is behind from now on; the invariant stays |
| `DocumentStore.Database.Replay` | packages/server/src/crdt/yjs-store.ts:70-81 | replaying the rows one after the other gives the merge of all of them |
| `DocumentStore.Database.LoadSnapshot` | packages/server/src/crdt/yjs-store.ts:61-86 | a snapshot holds everything committed so far and the generation it makes up |
| `DocumentStore.Database.CommitPass` | packages/server/src/crdt/projector.ts:128-174 | if the pass ran, the projected generation advanced to its snapshot, the live rows are exactly its live items, the row of every item has its fields, and rows without an item are tombstones with their fields kept; if not, the table is as it was; with the root present it runs exactly when its snapshot is newer |
| `DocumentStore.Database.ProjectDocument` | packages/server/src/crdt/projector.ts:104-174 | load and commit leave nothing to project and the table exact for the document as it is, row by row; the answer says whether the projection advanced |
| `DocumentStore.Database.ReadForCompaction` | packages/server/src/jobs/compaction.ts:57-79 | does nothing at or below the threshold; otherwise remembers the exact rows read and their merge |
| `DocumentStore.Database.FinishCompaction` | packages/server/src/jobs/compaction.ts:80-96 | the merged document is what it was, rows appended since the read stand unchanged, the rows read are gone but one |
| `DocumentStore.Database.CompactDocument` | packages/server/src/jobs/compaction.ts:57-96 | above the threshold one row is left and holds the whole document; otherwise nothing changes |
| `DocumentStore.Database.RemoveKeys` | packages/server/src/crdt/gc-keys.ts:18-33 | the removal is merged and durable while the table still has every row; nothing committed is lost |
| `DocumentStore.Database.FinishCollection` | packages/server/src/jobs/gc.ts:163-171 | exactly the decided rows go; what is live stays live, every other row stands as it was and keeps its parent row |
| `DocumentStore.Database.CollectDocument` | packages/server/src/jobs/gc.ts:150-171 | decision, key removal and row removal together take exactly the decided rows and keep every live row and the parent key |
| `PendingSync.ReceiptServer.PersistDocumentUpdate` | packages/server/src/rpc/handlers.ts:244-263 | receipts and the log only grow; a successful reply repeats a receipt for exactly the bytes sent, and they are merged; a refusal comes exactly for other bytes under a known identity; a batch is logged once |
| `Receipts.ServedHolds` | packages/server/src/rpc/handlers.ts:244-263 | receipts are never changed; a successful reply repeats the receipt of exactly the bytes sent |
| `Receipts.StepHolds` | packages/client/src/offline/document-sync.ts:25-104 | every edit, put, flush, delivery, reply, crash and restart step keeps the whole invariant |
| `Receipts.NoUpdateIsLost` | packages/client/src/offline/document-sync.ts:74-84 | in every run what reached the pending store is pending or has a receipt for its bytes, every batch is appended exactly once, and no batch of the device is refused |
| `Receipts.AwaitedCanSettle` | packages/client/src/offline/document-sync.ts:74-84 | the batch a flush waits for can always be sent, answered with a receipt and dropped from the pending store, and then the next one is due |
| `Receipts.RepliesCarryOneRevision` | packages/server/src/rpc/handlers.ts:249-263 | all successful replies for a batch, at any time, carry the same revision |
| `Receipts.SavedOnServerMeans` | packages/client/src/offline/document-sync.ts:91-95 | when the tab announces "Saved on server", every stored update has a receipt, and all the tab produced is on the server exactly when what is still queued or was dropped is |
| `Receipts.SavedOnServerWhenQuiet` | packages/client/src/offline/document-sync.ts:91-95 | in every run the announcement is true of everything the tab produced when its queue is empty and its storage never failed |
| `Receipts.SavedCanBeEarly` | packages/client/src/offline/document-sync.ts:25-45 | an edit made while the server state is on its way is announced as saved although it is still queued |
| `Receipts.FlushShowsWhatItSent` | packages/client/src/offline/document-sync.ts:85-90 | a finished flush has brought everything it sent back into the document |
| `Receipts.ReopeningReplaysPending` | packages/client/src/offline/document-sync.ts:110-116 | reopening a tab brings every pending update back |
| `Receipts.EachEditIsStoredOnce` | packages/client/src/offline/document-sync.ts:25-45 | over every run: the edits of a tab are, in order, those its puts have settled and those still queued; each put settles one edit, a stored one under a batch of its own; so no edit is stored twice or passed over |
| `PendingSync.DocumentSync.PutSettles` | packages/client/src/offline/document-sync.ts:28-43 | the first queued update leaves the queue; a successful put appends exactly it to the pending store under the new batch and drops nothing; a failed one drops it and the tab knows |
| `PendingSync.DocumentSync.FlushBegin` | packages/client/src/offline/document-sync.ts:47-74 | a tab whose storage failed does not flush and says so; otherwise it takes the pending list; the invariant stays |
| `PendingSync.DocumentSync.TakeReceipt` | packages/client/src/offline/document-sync.ts:74-84 | the batch that leaves the pending store has a receipt for its bytes, and no other batch leaves |
| `PendingSync.DocumentSync.FlushEnd` | packages/client/src/offline/document-sync.ts:85-95 | everything the flush sent is shown; "Saved on server" is announced exactly when nothing is pending, and then everything ever stored is on the server |
| `PendingSync.DocumentSync.Flush` | packages/client/src/offline/document-sync.ts:46-104 | an uninterrupted flush empties the pending store, brings everything ever stored to the server and shows the server state; a tab whose storage failed changes nothing but its status |
| `PendingSync.DocumentSync.constructor` | packages/client/src/offline/document-sync.ts:110-116 | a tab opens with every pending update shown and the invariant in place |
| `PendingSync.DocumentSync.Enqueue` | packages/client/src/offline/document-sync.ts:25-29 | the edit shows at once, is last in the queue, and the tab says that it is being saved |
| `ReplicaLedger.StepHolds` | packages/server/src/crdt/replica-hooks.ts:67-172 | every connection, acknowledgement, heartbeat, late or failed ledger write and collection step keeps the invariant |
| `ReplicaLedger.ReportsReachTheLedger` | packages/server/src/crdt/replica-hooks.ts:95-172 | a tracked connection that opens, is acknowledged, beats or closes has its write on the way, and once it lands the row is seen since then, acknowledged since then exactly when the connection was, and no other row has changed |
| `ReplicaLedger.CollectionIsSafe` | packages/server/src/jobs/gc.ts:150-171 | what a collection removes has been received by every replica in the ledger it read and by every replica connected when it removes |
| `ReplicaLedger.CollectionHappens` | packages/server/src/jobs/gc.ts:150-171 | for every replica and tombstone there is a run in which the replica acknowledges and the tombstone is collected, so the safety claims are not empty |
| `ReplicaLedger.AcknowledgementsAreTrue` | packages/server/src/db/replica-sync-repo.ts:9-15 | in every run an acknowledgement at time t means that the replica holds everything that arrived before t |
| `ReplicaLedger.HeldMeans` | packages/server/src/db/replica-sync-repo.ts:9-15 | over every run, what the other claims mean by received: a replica has a tombstone exactly when it was connected as it arrived or caught up afterwards |
| `ReplicaLedger.EligibleIsHeld` | packages/server/src/jobs/gc.ts:107-136 | a tombstone past every ledger row has been received by every replica in the ledger |
| `ReplicaLedger.EqualTimesProveNothing` | packages/server/src/jobs/gc.ts:127-131 | an acknowledgement can carry the very time of a tombstone the replica does not have, so the strict comparison is needed |
| `ReplicaLedger.TouchesCommute` | packages/server/src/db/replica-sync-repo.ts:28-37 | late, repeated or reordered writes end in the same row |
| `ReplicaLedger.LedgerTable.TouchReplica` | packages/server/src/db/replica-sync-repo.ts:28-37 | the last-seen time becomes the later of the two and never goes back; the acknowledgement moves only for a synced touch and never goes back; no other row changes |
| `ReplicaLedger.LedgerTable.TouchReplicasBatch` | packages/server/src/db/replica-sync-repo.ts:40-65 | coalescing the sockets of a replica equals touching them one by one: a touched row is seen at that time or later, acknowledged at that time or later exactly when one of its touches is, and no other row changes; every acknowledgement stays true |
| `ReplicaLedger.CapHolds` | packages/server/src/db/replica-sync-repo.ts:100-118 | never-acknowledged rows go only when the cap is full, and then exactly the most recently seen ones, ties by id, stay; every acknowledged row stays as it is |
| `ReplicaLedger.LedgerTable.PruneNeverAckedOverflow` | packages/server/src/db/replica-sync-repo.ts:100-118 | the table afterwards is the capped one, and every acknowledgement in it is still true |
| `ReplicaLedger.LedgerTable.PruneStaleReplicas` | packages/server/src/db/replica-sync-repo.ts:84-87 | replicas seen since the limit keep their rows unchanged and from then on they alone decide what is blocked; every acknowledgement stays true |
| `ReplicaLedger.LedgerTable.MayCollect` | packages/server/src/jobs/gc.ts:121-131 | the gate passes a tombstone exactly when it is older than the cutoff and every row of the table was acknowledged strictly after it, and then every replica in the table has received it |
| `Connections.ConnectionRegistry.Register` | packages/server/src/crdt/connections.ts:53-69 | the session index stays exact exactly when the socket was not registered under another session |
| `Connections.RegisteredTwice` | packages/server/src/crdt/connections.ts:53-69 | a concrete registry in which one socket, registered under two sessions, is listed under the first although it belongs to the second |
| `Connections.ConnectionRegistry.Unregister` | packages/server/src/crdt/connections.ts:70-78 | the socket leaves both maps and the index stays exact |
| `Connections.ConnectionRegistry.CloseSession` | packages/server/src/crdt/connections.ts:85-91 | all sockets of the session and no others are closed |
| `Connections.ConnectionRegistry.Connected` | packages/server/src/crdt/replica-hooks.ts:95-121 | a new connection is registered at once and its ledger write is for its document and replica and never acknowledges |
| `Connections.ConnectionRegistry.OnSynced` | packages/server/src/crdt/replica-hooks.ts:124-145 | the socket is marked and keeps session, document and replica; every other socket stands; its write is for its document and replica, synced, at that time, and there is none without a replica |
| `Connections.ConnectionRegistry.OnDisconnect` | packages/server/src/crdt/replica-hooks.ts:147-172 | the socket leaves; its write is for its document and replica with the flag it had, at that time, and there is none without a replica |
| `Connections.ConnectionRegistry.Heartbeat` | packages/server/src/crdt/replica-heartbeat.ts:30-47 | exactly one write for each live connection with a replica id, for its document, with its own flag and at that time, and none for the others |
| `GcPasses.EligibleItemIds` | packages/server/src/jobs/gc.ts:107-136 | a batch of at most the limit; each of it is a childless row, tombstoned before the cutoff, with every ledger row acknowledged strictly after that; a row like this is left out only when the batch is full of rows tombstoned no later |
| `GcPasses.EligibleMeans` | packages/server/src/jobs/gc.ts:111-131 | in row and ledger fields: eligible are exactly the childless rows tombstoned before the cutoff whose time every ledger row was acknowledged strictly after |
| `GcPasses.ItemsTable.CollectPass` | packages/server/src/jobs/gc.ts:150-171 | one pass removes one batch and keeps every remaining row's parent row; a row that is live, too young or not past every ledger row stays, with all rows above it |
| `GcPasses.ItemsTable.CollectAll` | packages/server/src/jobs/gc.ts:229-255 | repeated passes with a fixed ledger and cutoff end, and exactly the removable rows are gone, the rest untouched; a row that is live, too young or not past every ledger row stays, with all rows above it |
| `GcPasses.PassesRemoveExactly` | packages/server/src/jobs/gc.ts:111-131 | once a pass finds nothing, a row is gone exactly when its whole subtree is aged, tombstoned and acknowledged and it is on no loop of stale rows |
| `GcPasses.LeavesGoParentsStay` | packages/server/src/jobs/gc.ts:115-118 | removing leaves keeps every remaining row's parent row |
| `ReplicaDuel.Tab.OnMessage` | packages/client/src/replica-id.ts:121-131 | a tab gives its id up exactly when told that it is taken; what it holds is always what it stored and what it announced last; it answers for its own id only |
| `ReplicaDuel.Duel` | packages/client/src/replica-id.ts:87-104 | a tab and its duplicate: the original keeps the id, the duplicate ends with the fresh one, stored and announced |
| `ReplicaDuel.StepHolds` | packages/client/src/replica-id.ts:111-140 | opening, closing and every delivery keep: two live tabs with one id have a message about it on its way to one of them |
| `ReplicaDuel.QuietTabsDiffer` | packages/client/src/replica-id.ts:87-104 | in every run, once nothing is on its way to a live tab, live tabs hold different ids |
| `ReplicaDuel.LosesExactlyWhenThreatened` | packages/client/src/replica-id.ts:121-131 | deliveries alone can take the id from a live tab if and only if it is threatened: told that the id is taken, or its claim is on the way to another live holder |
| `ReplicaDuel.PromiseMeansSafe` | packages/client/src/replica-id.ts:74-79 | no sequence of deliveries makes any tab change its id a second time if and only if no tab has done so and none that has changed is threatened |
| `ReplicaDuel.OpeningKeepsPromise` | packages/client/src/replica-id.ts:111-118 | an opening keeps that state if and only if its id is not held by two live tabs one of which has changed already; `PromiseStep` says the same of every action |
| `ReplicaDuel.RenewsAtMostOnce` | packages/client/src/replica-id.ts:74-79 | over every run whose openings all meet that condition, every tab changes its id at most once in total |
| `ReplicaDuel.OnceFromTheStart` | packages/client/src/replica-id.ts:74-79 | the same for runs from the start, for every tab that ever was |
| `ReplicaDuel.SafeExactlyWhenCareful` | packages/client/src/replica-id.ts:74-79 | at every moment of a run a second change is out of reach of the deliveries if and only if every opening so far met the condition |
| `ReplicaDuel.KeepsIdWhileUnshared` | packages/client/src/replica-id.ts:121-131 | a tab that is not threatened keeps its id for as long as nobody opens under it while another live tab holds it too |
| `ReplicaDuel.FreshTabKeepsId` | packages/client/src/replica-id.ts:87-104 | a tab that opens under an unused id keeps it, with no change ever, under the same condition |
| `ReplicaDuel.DuelEnds` | packages/client/src/replica-id.ts:87-104 | in every run the messages run out: deliveries are bounded by the potential of the start, the openings, and the openings under copied ids |
| `ReplicaDuel.OpeningTabsRenewAgain` | packages/client/src/replica-id.ts:74-79 | a concrete run with an opening that breaks the condition, in which the original takes a fresh id a second time |
| `History.OutlineHistory.Transact` | packages/crdt/src/history.ts:46-75 | a structural transaction is recorded on top of the others, and the redo stack cleared, exactly unless it changed no item and wrote no stamp |
| `History.OutlineHistory.Apply` | packages/crdt/src/history.ts:84-119 | the writes of one side, change by change, are the effect of the whole action |
| `History.OutlineHistory.UndoLast` | packages/crdt/src/history.ts:129-135 | the last action moves to the redo stack and every register in which it changed an item has the recorded value again, whatever it held since; every other register is left alone; nothing happens on an empty stack |
| `History.OutlineHistory.RedoLast` | packages/crdt/src/history.ts:136-142 | the last undone action moves to the undo stack and every register in which it changed an item has the value it wrote, whatever it held since; every other register is left alone; nothing happens on an empty stack |
| `History.RegistersWritten` | packages/crdt/src/history.ts:102-117 | on any document, whatever others wrote meanwhile: a placement the action changed or wrote again, a deleted or completed register it changed, takes the recorded value; every other register stays |
| `History.CreationWritten` | packages/crdt/src/history.ts:92-117 | undoing a creation only tombstones the item; redoing it writes placement, deleted and completed as they were, and leaves the text |
| `History.RootWritten` | packages/crdt/src/history.ts:92-117 | the root is never deleted or revived, and takes back a placement only when that is a root's |
| `History.OnlyChangedRegisters` | packages/crdt/src/history.ts:102-117 | whatever others wrote meanwhile, undo and redo leave every register alone that the action did not write, and never touch text; a placement written with the same place counts as written |
| `History.UntouchedItems` | packages/crdt/src/history.ts:92-101 | items the action did not write stay as they are; undoing a creation tombstones the item and nothing else |
| `History.UndosThenRedos` | packages/crdt/src/history.ts:129-142 | in a local session any number of undos followed by as many redos restores every register and both stacks |
| `History.UndoAllRestores` | packages/crdt/src/history.ts:129-135 | undoing a local session restores every item there was; what was created since is tombstoned |
| `HistoryRows.UndoAllShowsTheSame` | packages/crdt/src/history.ts:84-135 | undoing a local session shows exactly the rows it began with, for every zoom and collapse state |
| `DeleteRecords.ItemNode.ReadDeleted` | packages/crdt/src/yjs-node.ts:62-70 | deleted exactly when some delete token has no acknowledgement |
| `DeleteRecords.ItemNode.WriteDeleted` | packages/crdt/src/yjs-node.ts:165-193 | a delete adds its token; a restore acknowledges exactly the tokens known to the writer; both maps exist afterwards |
| `DeleteRecords.WritesTakeEffect` | packages/crdt/src/yjs-node.ts:165-193 | to the writer a delete deletes and a restore restores |
| `DeleteRecords.MergesConverge` | packages/crdt/src/yjs-node.ts:62-70 | replicas that received the same states agree, whatever the order and however often |
| `DeleteRecords.MergedIsDeleted` | packages/crdt/src/yjs-node.ts:62-70 | with both maps shared, an item is deleted after a merge exactly when one side knows a delete that neither side has acknowledged; `MergeMeans` says which tokens survive when the maps differ |
| `DeleteRecords.ConcurrentDeleteSurvives` | packages/crdt/src/yjs-node.ts:186-193 | with both maps shared, a delete that no restore knew of keeps the item deleted wherever it arrives |
| `DeleteRecords.OpenDeleteSurvivesMerge` | packages/crdt/src/yjs-node.ts:174-185 | an unacknowledged delete survives a merge exactly when its map is not beaten by another one that lacks it |
| `DeleteRecords.LazyMapsCanLoseADelete` | packages/crdt/src/yjs-node.ts:174-185 | two replicas that create the maps at the same time can merge to a live item although one delete was never acknowledged |
| `Portable.PortableDocument` | packages/client/src/offline/portable.ts:33-58 | one item per exported node, with the effective parent and, with the trash, its own deleted flag |
| `Portable.ExportedMeans` | packages/client/src/offline/portable.ts:33-58 | what is exported is every item, or every item that is not deleted, each with its rank, text, completion and effective parent |
| `Portable.ValidatePortable` | packages/client/src/offline/portable.ts:59-101 | accepts exactly lists of 1 to 50000 items without repeated ids, with one root, from every item of which the named parents lead up to that root; each other verdict exactly when its check is the first to fail |
| `Portable.ExportIsAccepted` | packages/client/src/offline/portable.ts:33-101 | an export is accepted exactly when the root is in the document and the size is within bounds |
| `PortableImport.InstantiatePortable` | packages/client/src/offline/portable.ts:102-141 | an accepted list becomes a document with every item under its new id and new ranks that follow the old order |
| `PortableImport.RankItems` | packages/client/src/offline/portable.ts:108-119 | within every sibling group the new ranks increase exactly as the old ranks do, ties broken by the old ids |
| `PortableRoundTrip.BuiltIsClean` | packages/client/src/offline/portable.ts:125-131 | the imported document has no faults and its tree is the exported one under the new ids |
| `PortableRoundTrip.DeletedCarriesOver` | packages/client/src/offline/portable.ts:136-137 | an item is live after the round trip exactly when it was before |
| `PortableRoundTrip.ChildrenCarryOver` | packages/client/src/offline/portable.ts:110-119 | every item has the same live children in the same order after the round trip |
| `PortableRoundTrip.FieldsCarryOver` | packages/client/src/offline/portable.ts:125-137 | texts and completion carry over, and with the trash the own deleted flags |
| `PortableRoundTrip.RowsCarryOver` | packages/client/src/offline/portable.ts:102-141 | the visible rows below any item are the same after the round trip, row by row and depth by depth, with nothing recovered |
| `PortableRoundTrip.ExportAndImport` | packages/client/src/offline/portable.ts:33-141 | export, validation and import in one go: accepted exactly when the root is there and the size is within bounds, and then every item stands under its new id with the same fields and order, nothing is added, and every zoom and collapse state shows the same rows |

## Left out

- Siblings.RankBetween: states only that the rank lies strictly between its bounds; the seeded choice among several candidates and the key alphabet are the ordering library's.
- OutlineDoc.Document.OutlineIndex: observers that read between the end of a transaction and the index's own listener are not modelled; the root id is fixed for a document's lifetime.
- OutlineDoc.Document.DeleteItem: asks that the item exists, where the original fails on a missing one.
- CycleRepair.RepairForCycle: two repairs of one round may get equal ranks; the original separates them by a seed most of the time.
- PortableRoundTrip.FieldsCarryOver: item type and note, copied like the text.
- Projection.ProjectSnapshots: item type, note and collapse flag, carried along like the text; the path without a root id, which `Materialize` covers for the deleted flags and `CycleRepair` for the placements.
- DocumentStore.Sweep: a document whose pass fails, which the original logs and skips.
- DocumentStore.Database.LoadSnapshot: rows that fail to decode, which the original reports and does not load past, are not modelled.
- DocumentStore.Database.CommitPass: the document title, and rows of other documents with the same item ids.
- PendingSync.ReceiptServer.PersistDocumentUpdate: the digest stands for the bytes, so colliding digests are left out; so are sessions, access checks, envelope checks and the creation of the document.
- ReplicaLedger.CollectionIsSafe: says nothing about replicas that were pruned from the ledger, and nothing about clients that connect after the last check.
- ReplicaLedger.LedgerTable.PruneStaleReplicas: how old a row must be; in the protocol any row may be forgotten at any time.
- Connections.ConnectionRegistry.Connected: the log line about a shared replica id, and the validation of the id's form.
- GcPasses.ItemsTable.CollectAll: attachments, object storage and the choice of documents per run.
- History.OutlineHistory.Apply: the text half of undo, and the type and collapse flags, which the original records as changes and does not restore.
- Portable.PortableDocument: item type and note, carried along like the text; the order of the exported list, which nothing depends on.
- Portable.ValidatePortable: type checks of untyped input; empty ids.
- Stamps of outline moves: the outline never compares them, and history only asks whether one was written; which of two concurrent writes of one register wins is the replication library's choice.
- Row encoding, the SQL text and isolation levels below one transaction as one step.
- The server's own import and export of documents, which write table rows outside the projection.
- The Markdown export, whose ties follow the locale.
- The user interface, authentication, rate limits, storage of attachments and migrations.
