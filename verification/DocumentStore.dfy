/**
 One document's persistence as a transition system: appended updates, snapshot
 loads, projection commits, compaction and tombstone collection, in any
 interleaving. A step is one committed transaction, one snapshot load, or one
 moment at which the holder of the document lock reads.

 What the merged operations say is the parameter `view`.
 */
module DocumentStore {
  import opened Collections
  import opened TreeTheory
  import opened Siblings
  import opened EffectiveTree
  import opened OutlineModel
  import opened Projection
  import opened Updates

  datatype RowId = RowId(n: nat)

  type Rows = map<RowId, set<Op>>

  // Merged operations and the generation read together with them.
  datatype Snapshot = Snapshot(ops: set<Op>, revision: nat)

  // Who holds the document lock between two of its own steps.
  datatype Lock =
    | Free
    | Compacting(ids: set<RowId>, ops: set<Op>)
    | Collecting(items: set<Id>, keysRemoved: bool)

  /**
   The stored state. `loaded` are the snapshots in the hands of some pass;
   `history` and `committed` record the past: the merged operations at each
   generation, and everything ever appended.
   */
  datatype Db = Db(rows: Rows, used: set<RowId>, sourceRev: nat, projectedRev: nat, table: Table, lock: Lock,
                   loaded: set<Snapshot>, history: seq<set<Op>>, committed: set<Op>)

  type View = set<Op> -> Items

  datatype Action =
    | Append(row: RowId, update: set<Op>)
    | Load
    | Commit(snapshot: Snapshot, now: Time)
    | CompactRead(threshold: nat)
    | CompactCommit(row: RowId)
    | CollectDecide(ids: set<Id>)
    | CollectRemoveKeys(row: RowId, delta: set<Op>)
    | CollectCommit
    | Abandon

  ghost function Merged(rows: Rows): set<Op> {
    set id, op | id in rows && op in rows[id] :: op
  }

  // The rank given to the root of a new document; which one it is does not matter.
  const ROOT_RANK: Rank := 0.0

  /** A new document has a row for its root and no updates yet. */
  function Initial(root: Id): Db {
    Db(map[], {}, 0, 0, map[root := TableRow(None, ROOT_RANK, "", false, None, 1)], Free, {}, [{}], {})
  }

  // ---------- the steps ----------

  /** A tombstone without child rows. */
  ghost predicate Leaf(table: Table, id: Id) {
    && id in table && table[id].deletedAt.Some?
    && forall c :: c in table ==> table[c].parentId != Some(id)
  }

  ghost predicate Enabled(db: Db, action: Action) {
    match action
    case Append(row, _) => row !in db.used
    case Load => true
    case Commit(snapshot, _) => db.lock.Free? && snapshot in db.loaded
    case CompactRead(_) => db.lock.Free?
    case CompactCommit(row) => db.lock.Compacting? && row !in db.used
    case CollectDecide(ids) => db.lock.Free? && ids != {} && forall id :: id in ids ==> Leaf(db.table, id)
    case CollectRemoveKeys(row, _) => db.lock.Collecting? && !db.lock.keysRemoved && row !in db.used
    case CollectCommit => db.lock.Collecting? && db.lock.keysRemoved
    case Abandon => !db.lock.Free?
  }

  /** Insert a row and advance the generation, in one transaction. */
  ghost function Appended(db: Db, row: RowId, update: set<Op>): Db {
    var rows := db.rows[row := update];
    db.(rows := rows, used := db.used + {row}, sourceRev := db.sourceRev + 1,
        history := db.history + [Merged(rows)], committed := db.committed + update)
  }

  ghost function SnapshotOf(db: Db): Snapshot {
    Snapshot(Merged(db.rows), if db.rows == map[] then 0 else db.sourceRev)
  }

  /** A pass commits only when it advances the projected generation and the parent key holds. */
  ghost function Projected(view: View, root: Id, db: Db, snapshot: Snapshot, now: Time): Db {
    var table := Project(db.table, ProjectedRows(view(snapshot.ops), root), now);
    if db.sourceRev <= db.projectedRev || snapshot.revision <= db.projectedRev || !ParentsPresent(table) then db
    else db.(table := table, projectedRev := snapshot.revision)
  }

  ghost function CompactionStarted(db: Db, threshold: nat): Db {
    if |db.rows| <= threshold then db else db.(lock := Compacting(db.rows.Keys, Merged(db.rows)))
  }

  /** Exactly the rows that were read go; one row with their merge comes. */
  ghost function Compacted(db: Db, row: RowId): Db
    requires db.lock.Compacting?
  {
    var rows := (db.rows - db.lock.ids)[row := db.lock.ops];
    db.(rows := rows, used := db.used + {row}, sourceRev := db.sourceRev + 1, lock := Free,
        history := db.history + [Merged(rows)])
  }

  ghost function After(view: View, root: Id, db: Db, action: Action): Db
    requires Enabled(db, action)
  {
    match action
    case Append(row, update) => Appended(db, row, update)
    case Load => db.(loaded := db.loaded + {SnapshotOf(db)})
    case Commit(snapshot, now) => Projected(view, root, db, snapshot, now)
    case CompactRead(threshold) => CompactionStarted(db, threshold)
    case CompactCommit(row) => Compacted(db, row)
    case CollectDecide(ids) => db.(lock := Collecting(ids, false))
    case CollectRemoveKeys(row, delta) => Appended(db, row, delta).(lock := db.lock.(keysRemoved := true))
    case CollectCommit => db.(table := db.table - db.lock.items, lock := Free)
    case Abandon => db.(lock := Free)
  }

  ghost predicate Next(view: View, root: Id, a: Db, b: Db) {
    exists action :: Enabled(a, action) && b == After(view, root, a, action)
  }

  ghost predicate Run(view: View, root: Id, states: seq<Db>) {
    && |states| > 0 && states[0] == Initial(root)
    && forall i :: 0 < i < |states| ==> Next(view, root, states[i - 1], states[i])
  }

  // ---------- the invariant ----------

  /** Generations, rows and history fit together; nothing committed is missing. */
  ghost predicate Durable(db: Db) {
    && |db.history| == db.sourceRev + 1 && db.history[0] == {}
    && db.history[db.sourceRev] == Merged(db.rows) == db.committed
    && (forall i, j :: 0 <= i <= j < |db.history| ==> db.history[i] <= db.history[j])
    && db.rows.Keys <= db.used
    && (db.rows == map[] <==> db.sourceRev == 0)
  }

  /** A loaded snapshot is what its generation held. */
  ghost predicate SnapshotsHold(db: Db) {
    |db.history| == db.sourceRev + 1
    && forall s :: s in db.loaded ==> s.revision <= db.sourceRev && s.ops == db.history[s.revision]
  }

  /** What the holder of the lock has read still stands. */
  ghost predicate LockHolds(db: Db) {
    match db.lock
    case Free => true
    case Compacting(ids, ops) =>
      && ids != {} && ids <= db.rows.Keys
      && ops == Merged(map id | id in ids && id in db.rows :: db.rows[id])
    case Collecting(items, _) => forall id :: id in items ==> Leaf(db.table, id)
  }

  /** The table shows the document of the projected generation. */
  ghost predicate Projects(view: View, root: Id, db: Db) {
    && |db.history| == db.sourceRev + 1 && db.projectedRev <= db.sourceRev
    && ParentsPresent(db.table)
    && (db.projectedRev > 0 ==>
          var items := view(db.history[db.projectedRev]);
          root in items ==> Exact(db.table, items, root))
  }

  ghost predicate Inv(view: View, root: Id, db: Db) {
    Durable(db) && SnapshotsHold(db) && LockHolds(db) && Projects(view, root, db)
  }

  lemma MergedInsert(rows: Rows, row: RowId, update: set<Op>)
    requires row !in rows
    ensures Merged(rows[row := update]) == Merged(rows) + update
  {
    var after := rows[row := update];
    forall op
      ensures op in Merged(after) <==> op in Merged(rows) + update
    {
      if op in Merged(rows) {
        var id :| id in rows && op in rows[id];
        assert id in after && op in after[id];
      }
      if op in update {
        assert row in after && op in after[row];
      }
    }
    SetEquality(Merged(after), Merged(rows) + update);
  }

  lemma MergedSplit(rows: Rows, ids: set<RowId>)
    requires ids <= rows.Keys
    ensures Merged(rows) == Merged(rows - ids) + Merged(map id | id in ids && id in rows :: rows[id])
  {
    var left, right := rows - ids, map id | id in ids && id in rows :: rows[id];
    forall op
      ensures op in Merged(rows) <==> op in Merged(left) + Merged(right)
    {
      if op in Merged(rows) {
        var id :| id in rows && op in rows[id];
        assert if id in ids then id in right && op in right[id] else id in left && op in left[id];
      }
    }
    SetEquality(Merged(rows), Merged(left) + Merged(right));
  }

  lemma InitialHolds(view: View, root: Id)
    ensures Inv(view, root, Initial(root))
  {
    assert Merged(map[]) == {};
  }

  lemma AppendedIsDurable(db: Db, row: RowId, update: set<Op>)
    requires Durable(db) && row !in db.used
    ensures Durable(Appended(db, row, update))
  {
    MergedInsert(db.rows, row, update);
    assert row in Appended(db, row, update).rows;
  }

  lemma CompactionKeepsMerge(db: Db, row: RowId)
    requires Durable(db) && LockHolds(db) && db.lock.Compacting? && row !in db.used
    ensures Merged(Compacted(db, row).rows) == Merged(db.rows)
  {
    MergedSplit(db.rows, db.lock.ids);
    MergedInsert(db.rows - db.lock.ids, row, db.lock.ops);
  }

  lemma CompactedIsDurable(db: Db, row: RowId)
    requires Durable(db) && LockHolds(db) && db.lock.Compacting? && row !in db.used
    ensures Durable(Compacted(db, row))
  {
    CompactionKeepsMerge(db, row);
    assert row in Compacted(db, row).rows;
    var id :| id in db.lock.ids;
    assert id in db.rows;
  }

  /** Rows only ever join while someone holds the lock, so what was read still stands. */
  lemma AppendedKeepsLock(db: Db, row: RowId, update: set<Op>)
    requires LockHolds(db) && row !in db.used && db.rows.Keys <= db.used
    ensures LockHolds(Appended(db, row, update))
  {
    if db.lock.Compacting? {
      var after := Appended(db, row, update);
      assert (map id | id in db.lock.ids && id in after.rows :: after.rows[id])
          == (map id | id in db.lock.ids && id in db.rows :: db.rows[id]);
    }
  }

  lemma LoadHolds(db: Db)
    requires Durable(db) && SnapshotsHold(db)
    ensures SnapshotsHold(db.(loaded := db.loaded + {SnapshotOf(db)}))
  {
  }

  lemma CommitProjects(view: View, root: Id, db: Db, snapshot: Snapshot, now: Time)
    requires SnapshotsHold(db) && Projects(view, root, db) && snapshot in db.loaded
    ensures Projects(view, root, Projected(view, root, db, snapshot, now))
  {
    var items := view(snapshot.ops);
    if root in items {
      ProjectionIsExact(db.table, items, root, now);
    }
  }

  lemma CollectedKeepsTable(view: View, root: Id, db: Db)
    requires LockHolds(db) && Projects(view, root, db) && db.lock.Collecting?
    ensures Projects(view, root, db.(table := db.table - db.lock.items, lock := Free))
  {
    hide InOutline, ProjectedRow, Unchanged;
    var table := db.table - db.lock.items;
    forall id
      ensures IsLiveRow(table, id) <==> IsLiveRow(db.table, id)
    {
    }
    forall id | id in table && table[id].parentId.Some?
      ensures table[id].parentId.value in table
    {
      var p := table[id].parentId.value;
      assert p in db.table;
      assert p in db.lock.items ==> Leaf(db.table, p);
    }
  }

  lemma AppendedKeepsView(view: View, root: Id, db: Db, row: RowId, update: set<Op>)
    requires Projects(view, root, db)
    ensures Projects(view, root, Appended(db, row, update))
  {
    hide Exact, ParentsPresent;
  }

  /** Every step keeps the invariant. */
  lemma StepHolds(view: View, root: Id, db: Db, action: Action)
    requires Inv(view, root, db) && Enabled(db, action)
    ensures Inv(view, root, After(view, root, db, action))
  {
    hide Exact, ParentsPresent, Project, Merged, ProjectedRows;
    match action
    case Append(row, update) =>
      AppendedIsDurable(db, row, update);
      AppendedKeepsLock(db, row, update);
      AppendedKeepsView(view, root, db, row, update);
    case Load =>
      LoadHolds(db);
    case Commit(snapshot, now) =>
      CommitProjects(view, root, db, snapshot, now);
    case CompactRead(threshold) =>
      CompactReadHolds(db, threshold);
    case CompactCommit(row) =>
      CompactedIsDurable(db, row);
    case CollectDecide(_) =>
    case CollectRemoveKeys(row, delta) =>
      AppendedIsDurable(db, row, delta);
      AppendedKeepsLock(db, row, delta);
      AppendedKeepsView(view, root, db, row, delta);
    case CollectCommit =>
      CollectedKeepsTable(view, root, db);
    case Abandon =>
  }

  lemma CompactReadHolds(db: Db, threshold: nat)
    requires LockHolds(db)
    ensures LockHolds(CompactionStarted(db, threshold))
  {
    if |db.rows| > threshold {
      assert db.rows.Keys != {};
      assert (map id | id in db.rows.Keys && id in db.rows :: db.rows[id]) == db.rows;
    }
  }

  // ---------- whole runs ----------

  /** Generations, history and committed operations only grow; the projected generation never goes back. */
  ghost predicate Grows(a: Db, b: Db) {
    && a.sourceRev <= b.sourceRev && a.projectedRev <= b.projectedRev
    && a.committed <= b.committed && a.history <= b.history
  }

  lemma StepGrows(view: View, root: Id, db: Db, action: Action)
    requires Enabled(db, action)
    ensures Grows(db, After(view, root, db, action))
  {
    hide Merged, Project, ParentsPresent, ProjectedRows;
  }

  lemma {:induction false} RunHolds(view: View, root: Id, states: seq<Db>, i: nat)
    requires Run(view, root, states) && i < |states|
    ensures Inv(view, root, states[i])
  {
    hide Inv, Enabled, After;
    InitialHolds(view, root);
    if i > 0 {
      RunHolds(view, root, states, i - 1);
      assert Next(view, root, states[i - 1], states[i]);
      var action :| Enabled(states[i - 1], action) && states[i] == After(view, root, states[i - 1], action);
      StepHolds(view, root, states[i - 1], action);
    }
  }

  lemma {:induction false} RunGrows(view: View, root: Id, states: seq<Db>, i: nat, j: nat)
    requires Run(view, root, states) && i <= j < |states|
    ensures Grows(states[i], states[j])
  {
    hide Enabled, After;
    if i < j {
      RunGrows(view, root, states, i, j - 1);
      assert Next(view, root, states[j - 1], states[j]);
      var action :| Enabled(states[j - 1], action) && states[j] == After(view, root, states[j - 1], action);
      StepGrows(view, root, states[j - 1], action);
    }
  }

  /**
   In every reachable state: nothing committed is lost; a positive generation has
   a stored row; the projected generation is behind or equal, never goes back,
   and the live rows are exactly the live items at that generation.
   */
  lemma ReachableStates(view: View, root: Id, states: seq<Db>, i: nat, j: nat)
    requires Run(view, root, states) && i <= j < |states|
    ensures Merged(states[j].rows) == states[j].committed >= states[i].committed
    ensures states[j].sourceRev > 0 <==> states[j].rows != map[]
    ensures states[i].projectedRev <= states[j].projectedRev <= states[j].sourceRev < |states[j].history|
    ensures ParentsPresent(states[j].table)
    ensures states[j].projectedRev > 0 && root in view(states[j].history[states[j].projectedRev]) ==>
      Exact(states[j].table, view(states[j].history[states[j].projectedRev]), root)
  {
    hide Exact, ParentsPresent, Merged, Run;
    RunHolds(view, root, states, j);
    RunGrows(view, root, states, i, j);
  }

  /** Equal generations mean the table shows the document as it is now. */
  lemma EqualGenerationsMeanCurrent(view: View, root: Id, states: seq<Db>, i: nat)
    requires Run(view, root, states) && i < |states|
    requires states[i].sourceRev == states[i].projectedRev > 0
    requires root in view(states[i].committed)
    ensures Exact(states[i].table, view(states[i].committed), root)
    ensures Merged(states[i].rows) == states[i].committed
  {
    hide Exact, ParentsPresent, Merged, Run;
    RunHolds(view, root, states, i);
  }

  /** A pass that loads now and commits before anyone else leaves nothing to project. */
  lemma UndisturbedPassCatchesUp(view: View, root: Id, db: Db, now: Time)
    requires Inv(view, root, db) && db.lock.Free? && db.projectedRev < db.sourceRev
    requires root in view(Merged(db.rows))
    ensures var loaded := After(view, root, db, Load);
      && Enabled(loaded, Commit(SnapshotOf(db), now))
      && var done := After(view, root, loaded, Commit(SnapshotOf(db), now));
         done.projectedRev == done.sourceRev && Exact(done.table, view(Merged(done.rows)), root)
  {
    hide Exact, Project, Merged, ProjectedRows;
    var items := view(Merged(db.rows));
    ProjectionIsExact(db.table, items, root, now);
    ProjectionKeepsParents(db.table, items, root, now);
  }

  /** Compaction leaves the merged document as it was, whatever was appended since it read. */
  lemma CompactionLosesNothing(view: View, root: Id, db: Db, row: RowId)
    requires Inv(view, root, db) && Enabled(db, CompactCommit(row))
    ensures var after := After(view, root, db, CompactCommit(row));
      && Merged(after.rows) == Merged(db.rows)
      && (forall id :: id in db.rows && id !in db.lock.ids ==> id in after.rows && after.rows[id] == db.rows[id])
      && after.sourceRev == db.sourceRev + 1
  {
    CompactionKeepsMerge(db, row);
  }

  /**
   A collected row comes back exactly through a pass that still has the item in its
   snapshot and advances the projected generation; if the key has been missing since
   `removedAt`, that pass read the document before.
   */
  lemma CollectedRowReturns(view: View, root: Id, db: Db, snapshot: Snapshot, now: Time, id: Id, removedAt: nat)
    requires Inv(view, root, db) && Enabled(db, Commit(snapshot, now))
    requires id !in db.table && root in view(snapshot.ops)
    ensures id in After(view, root, db, Commit(snapshot, now)).table
       <==> db.projectedRev < snapshot.revision && id in view(snapshot.ops)
    ensures (forall r :: removedAt <= r <= db.sourceRev ==> id !in view(db.history[r])) && id in view(snapshot.ops) ==>
      snapshot.revision < removedAt
  {
    hide Exact, Merged;
    FilterDropsNothing(view(snapshot.ops), root);
    ProjectionKeepsParents(db.table, view(snapshot.ops), root, now);
  }

  // ---------- the same steps on stored state ----------

  /**
   The stored document. Its invariant is the one of the transition system, every
   method is one of its steps, and the last three methods are whole operations.
   */
  class Database {
    const view: View
    const root: Id
    var rows: Rows
    var sourceRev: nat
    var projectedRev: nat
    var table: Table
    var lock: Lock
    ghost var used: set<RowId>
    ghost var loaded: set<Snapshot>
    ghost var history: seq<set<Op>>
    ghost var committed: set<Op>

    ghost function State(): Db
      reads this
    {
      Db(rows, used, sourceRev, projectedRev, table, lock, loaded, history, committed)
    }

    /** Nothing committed is missing, snapshots and locks are honest, the table shows the projected generation. */
    ghost predicate Valid()
      reads this
    {
      Inv(view, root, State())
    }

    constructor (view: View, root: Id)
      ensures this.view == view && this.root == root && State() == Initial(root) && Valid()
      ensures rows == map[] && sourceRev == projectedRev == 0 && lock.Free?
      ensures table.Keys == {root} && table[root] == TableRow(None, table[root].rank, "", false, None, 1)
    {
      this.view, this.root := view, root;
      rows, sourceRev, projectedRev, lock := map[], 0, 0, Free;
      table := Initial(root).table;
      used, loaded, history, committed := {}, {}, [{}], {};
      new;
      InitialHolds(view, root);
    }

    /** The update joins the merged document, nothing leaves it, and the table is behind from now on. */
    method AppendUpdate(row: RowId, update: set<Op>) returns (revision: nat)
      requires Valid() && row !in used
      modifies this`rows, this`used, this`sourceRev, this`history, this`committed
      ensures Valid() && State() == After(view, root, old(State()), Append(row, update))
      ensures Merged(rows) == old(Merged(rows)) + update == committed && rows == old(rows)[row := update]
      ensures revision == sourceRev == old(sourceRev) + 1 > projectedRev
    {
      hide Inv, Merged;
      StepHolds(view, root, State(), Append(row, update));
      MergedIsCommitted(view, root, State());
      rows := rows[row := update];
      sourceRev := sourceRev + 1;
      revision := sourceRev;
      used := used + {row};
      history := history + [Merged(rows)];
      committed := committed + update;
      MergedIsCommitted(view, root, State());
    }

    /** Replay the stored rows one after the other. */
    method Replay() returns (ops: set<Op>)
      ensures ops == Merged(rows)
    {
      ops := {};
      var left := rows.Keys;
      ghost var done: set<RowId> := {};
      while left != {}
        invariant left <= rows.Keys && done == rows.Keys - left
        invariant ops == MergedOf(rows, done)
        decreases |left|
      {
        var id := Pick(left);
        MergedOfStep(rows, done, id);
        ops := ops + rows[id];
        left := left - {id};
        done := done + {id};
      }
      MergedOfAll(rows);
    }

    /** Everything committed so far, with the generation it makes up. */
    method LoadSnapshot() returns (snapshot: Snapshot)
      requires Valid()
      modifies this`loaded
      ensures Valid() && State() == After(view, root, old(State()), Load)
      ensures snapshot in loaded && snapshot.ops == committed && snapshot.revision == sourceRev
    {
      hide Inv, Merged;
      StepHolds(view, root, State(), Load);
      MergedIsCommitted(view, root, State());
      var ops := Replay();
      snapshot := Snapshot(ops, if rows == map[] then 0 else sourceRev);
      loaded := loaded + {snapshot};
    }

    /**
     The locked part of a pass; `ran` tells whether it advanced the projection. If
     it did, the live rows are exactly the live items of the snapshot; if not, the
     table is as it was.
     */
    method CommitPass(snapshot: Snapshot, now: Time) returns (ran: bool)
      requires Valid() && lock.Free? && snapshot in loaded
      requires root != ROOT_PARENT_SENTINEL && ROOT_PARENT_SENTINEL !in view(snapshot.ops)
      modifies this`table, this`projectedRev
      ensures Valid() && State() == After(view, root, old(State()), Commit(snapshot, now))
      ensures if ran then old(projectedRev) < projectedRev == snapshot.revision
              else projectedRev == old(projectedRev) && table == old(table)
      ensures ran && root in view(snapshot.ops) ==> Exact(table, view(snapshot.ops), root)
      ensures root in view(snapshot.ops) ==> (ran <==> snapshot.revision > old(projectedRev))
      ensures ran && root in view(snapshot.ops) ==> forall id :: id in view(snapshot.ops) ==>
        RowShows(table, view(snapshot.ops), root, id)
      ensures ran ==> forall id :: id in Projectable(ProjectedRows(view(snapshot.ops), root)) ==>
        var p := ProjectedRows(view(snapshot.ops), root)[id];
        && id in table && table[id].parentId == p.parentId && table[id].rank == p.rank && table[id].content == p.content
        && table[id].isCompleted == p.isCompleted && (table[id].deletedAt.Some? <==> p.deleted)
      ensures ran ==> forall id :: id in old(table) && id !in view(snapshot.ops) ==>
        && id in table && table[id].content == old(table)[id].content && table[id].rank == old(table)[id].rank
        && table[id].parentId == old(table)[id].parentId && table[id].isCompleted == old(table)[id].isCompleted
        && table[id].deletedAt.Some?
    {
      hide Inv, Merged, Exact, ParentsPresent, ProjectedRows, RowShows, Project, Projectable;
      CommitOutcome(view, root, State(), snapshot, now);
      StepHolds(view, root, State(), Commit(snapshot, now));
      if sourceRev <= projectedRev || snapshot.revision <= projectedRev {
        return false;
      }
      var projected := ProjectSnapshots(view(snapshot.ops), root);
      var after := Project(table, projected, now);
      if !HasParents(after) {
        return false; // the parent key fails and the transaction rolls back
      }
      PassIsWritten(table, view(snapshot.ops), root, now);
      table, projectedRev := after, snapshot.revision;
      ran := true;
    }

    method ReadForCompaction(threshold: nat) returns (go: bool)
      requires Valid() && lock.Free?
      modifies this`lock
      ensures Valid() && State() == After(view, root, old(State()), CompactRead(threshold))
      ensures go <==> |rows| > threshold
      ensures lock == if go then Compacting(rows.Keys, committed) else Free
    {
      hide Inv, Merged;
      StepHolds(view, root, State(), CompactRead(threshold));
      MergedIsCommitted(view, root, State());
      if |rows| <= threshold {
        return false;
      }
      var ops := Replay();
      lock := Compacting(rows.Keys, ops);
      go := true;
    }

    /** The rows that were read become one row; the merged document and every later row stay. */
    method FinishCompaction(row: RowId)
      requires Valid() && lock.Compacting? && row !in used
      modifies this`rows, this`used, this`sourceRev, this`history, this`lock
      ensures Valid() && State() == After(view, root, old(State()), CompactCommit(row))
      ensures Merged(rows) == old(Merged(rows)) == committed && lock.Free?
      ensures rows.Keys == old(rows).Keys - old(lock).ids + {row} && sourceRev == old(sourceRev) + 1
      ensures rows[row] == old(lock).ops && committed == old(committed)
      ensures forall id :: id in old(rows) && id !in old(lock).ids ==> id in rows && rows[id] == old(rows)[id]
    {
      hide Inv, Merged;
      StepHolds(view, root, State(), CompactCommit(row));
      MergedIsCommitted(view, root, State());
      rows := (rows - lock.ids)[row := lock.ops];
      sourceRev := sourceRev + 1;
      lock := Free;
      used := used + {row};
      history := history + [Merged(rows)];
      MergedIsCommitted(view, root, State());
    }

    method BeginCollection(ids: set<Id>)
      requires Valid() && lock.Free? && ids != {} && forall id :: id in ids ==> Leaf(table, id)
      modifies this`lock
      ensures Valid() && State() == After(view, root, old(State()), CollectDecide(ids))
      ensures lock == Collecting(ids, false)
    {
      hide Inv, Leaf;
      StepHolds(view, root, State(), CollectDecide(ids));
      lock := Collecting(ids, false);
    }

    /** The removal is durable before any row goes: it is merged, and the table still has every row. */
    method RemoveKeys(row: RowId, delta: set<Op>)
      requires Valid() && lock.Collecting? && !lock.keysRemoved && row !in used
      modifies this`rows, this`used, this`sourceRev, this`history, this`committed, this`lock
      ensures Valid() && State() == After(view, root, old(State()), CollectRemoveKeys(row, delta))
      ensures Merged(rows) == old(Merged(rows)) + delta == committed && table == old(table)
      ensures rows == old(rows)[row := delta] && sourceRev == old(sourceRev) + 1
      ensures lock == old(lock).(keysRemoved := true)
    {
      hide Inv, Merged;
      StepHolds(view, root, State(), CollectRemoveKeys(row, delta));
      var _ := AppendUpdate(row, delta);
      lock := lock.(keysRemoved := true);
    }

    /** Exactly the decided rows go; what is live stays live and every row keeps its parent row. */
    method FinishCollection()
      requires Valid() && lock.Collecting? && lock.keysRemoved
      modifies this`table, this`lock
      ensures Valid() && State() == After(view, root, old(State()), CollectCommit)
      ensures table.Keys == old(table).Keys - old(lock).items && ParentsPresent(table)
      ensures forall id :: IsLiveRow(table, id) <==> IsLiveRow(old(table), id)
      ensures forall id :: id in table ==> table[id] == old(table)[id]
    {
      CollectedAreNotLive(view, root, State());
      hide Inv, ParentsPresent, Leaf;
      StepHolds(view, root, State(), CollectCommit);
      table := table - lock.items;
      lock := Free;
      ValidParents(view, root, State());
    }

    method RollBack()
      requires Valid() && !lock.Free?
      modifies this`lock
      ensures Valid() && State() == After(view, root, old(State()), Abandon)
      ensures lock.Free?
    {
      hide Inv;
      StepHolds(view, root, State(), Abandon);
      lock := Free;
    }

    // ---------- whole operations ----------

    /** Load, then commit: with the root in the document nothing is left to project. */
    method ProjectDocument(now: Time) returns (ran: bool)
      requires Valid() && lock.Free? && root != ROOT_PARENT_SENTINEL && ROOT_PARENT_SENTINEL !in view(committed)
      modifies this
      ensures Valid() && lock.Free? && rows == old(rows) && sourceRev == old(sourceRev) && committed == old(committed)
      ensures root in view(committed) ==> (ran <==> old(projectedRev) < sourceRev) && projectedRev == sourceRev
      ensures if ran then projectedRev > old(projectedRev) else projectedRev == old(projectedRev)
      ensures ran && root in view(committed) ==> forall id :: id in view(committed) ==>
        RowShows(table, view(committed), root, id)
      ensures root in view(committed) && sourceRev > 0 ==> Exact(table, view(committed), root)
    {
      hide Inv, Exact, RowShows, ProjectedRows, Projectable;
      ProjectionIsBehind(view, root, State());
      var snapshot := LoadSnapshot();
      ran := CommitPass(snapshot, now);
      CurrentIsExact(view, root, State());
    }

    /** Read and replace: above the threshold one row is left, and it is the whole document. */
    method CompactDocument(threshold: nat, row: RowId) returns (compacted: bool)
      requires Valid() && lock.Free? && row !in used
      modifies this
      ensures Valid() && lock.Free? && Merged(rows) == old(Merged(rows)) && table == old(table)
      ensures compacted <==> |old(rows)| > threshold
      ensures if compacted then rows == map[row := committed] else rows == old(rows)
    {
      hide Inv, Merged;
      MergedIsCommitted(view, root, State());
      compacted := ReadForCompaction(threshold);
      if compacted {
        FinishCompaction(row);
        OneRowHolds(view, root, State(), row);
      }
    }

    /** Decide, remove the keys, remove the rows. */
    method CollectDocument(ids: set<Id>, row: RowId, delta: set<Op>)
      requires Valid() && lock.Free? && row !in used && ids != {} && forall id :: id in ids ==> Leaf(table, id)
      modifies this
      ensures Valid() && lock.Free? && committed == old(committed) + delta
      ensures table.Keys == old(table).Keys - ids && forall id :: id in table ==> table[id] == old(table)[id]
      ensures forall id :: IsLiveRow(table, id) <==> IsLiveRow(old(table), id)
    {
      hide Inv, Leaf, Merged;
      BeginCollection(ids);
      RemoveKeys(row, delta);
      FinishCollection();
    }
  }

  /** The item's row has its effective parent, its rank, text and completion, and is a tombstone exactly when it is deleted. */
  ghost predicate RowShows(table: Table, items: Items, root: Id, id: Id)
    requires id in items
  {
    && id in table
    && (id == root ==> table[id].parentId == None)
    && (id != root ==> id in EdgesOf(items, root) && table[id].parentId == Some(EdgesOf(items, root)[id]))
    && table[id].rank == items[id].rank && table[id].content == items[id].content
    && table[id].isCompleted == items[id].isCompleted
    && (table[id].deletedAt.Some? <==> id in Deleted(RawOf(items), root))
  }

  lemma PassIsWritten(table: Table, items: Items, root: Id, now: Time)
    ensures var after, rows := Project(table, ProjectedRows(items, root), now), ProjectedRows(items, root);
      && (root in items ==> forall id :: id in items ==> RowShows(after, items, root, id))
      && (forall id :: id in Projectable(rows) ==>
            && id in after && after[id].parentId == rows[id].parentId && after[id].rank == rows[id].rank
            && after[id].content == rows[id].content && after[id].isCompleted == rows[id].isCompleted
            && (after[id].deletedAt.Some? <==> rows[id].deleted))
      && forall id :: id in table && id !in items ==>
           && id in after && after[id].content == table[id].content && after[id].rank == table[id].rank
           && after[id].parentId == table[id].parentId && after[id].isCompleted == table[id].isCompleted
           && after[id].deletedAt.Some?
  {
    hide Project, EdgesOf, Deleted, ProjectedRow;
    var rows := ProjectedRows(items, root);
    var after := Project(table, rows, now);
    forall id | root in items && id in items
      ensures RowShows(after, items, root, id)
    {
      PassShows(table, items, root, now, id);
    }
    forall id | id in Projectable(rows)
      ensures id in after && after[id].parentId == rows[id].parentId && after[id].rank == rows[id].rank
      ensures after[id].content == rows[id].content && after[id].isCompleted == rows[id].isCompleted
      ensures after[id].deletedAt.Some? <==> rows[id].deleted
    {
      PassWrites(table, rows, now, id);
    }
    forall id | id in table && id !in items
      ensures id in after && after[id].content == table[id].content && after[id].rank == table[id].rank
      ensures after[id].parentId == table[id].parentId && after[id].isCompleted == table[id].isCompleted
      ensures after[id].deletedAt.Some?
    {
      PassLeaves(table, rows, now, id);
    }
  }

  // ---------- the catch-up sweep ----------

  ghost predicate Idle(d: Database)
    reads d
  {
    d.Valid() && d.lock.Free? && d.root != ROOT_PARENT_SENTINEL && ROOT_PARENT_SENTINEL !in d.view(d.committed)
  }

  /** Nothing is left to project, and the table shows the document as it is. */
  ghost predicate Current(d: Database)
    reads d
  {
    d.root in d.view(d.committed) ==>
      d.projectedRev == d.sourceRev && (d.sourceRev > 0 ==> Exact(d.table, d.view(d.committed), d.root))
  }

  /** Project every document that is behind; `count` says how many passes advanced a projection. */
  method Sweep(documents: seq<Database>, now: Time) returns (count: nat)
    requires forall i :: 0 <= i < |documents| ==> Idle(documents[i])
    requires forall i, j :: 0 <= i < j < |documents| ==> documents[i] != documents[j]
    modifies documents
    ensures forall i :: 0 <= i < |documents| ==>
      Idle(documents[i]) && Current(documents[i]) && documents[i].committed == old(documents[i].committed)
    ensures count == |Advanced(Generations(documents), old(Generations(documents)), |documents|)|
  {
    hide Idle, Current, Generations;
    count := 0;
    ghost var before := Generations(documents);
    for n := 0 to |documents|
      invariant forall i :: 0 <= i < |documents| ==> Idle(documents[i])
      invariant forall i :: 0 <= i < n ==> Current(documents[i])
      invariant forall i :: 0 <= i < |documents| ==> documents[i].committed == old(documents[i].committed)
      invariant forall i :: n <= i < |documents| ==> Generations(documents)[i] == before[i]
      invariant count == |Advanced(Generations(documents), before, n)|
    {
      ghost var were := Generations(documents);
      var ran := CatchUp(documents[n], now);
      OneMoreAdvanced(were, Generations(documents), before, n, ran);
      if ran {
        count := count + 1;
      }
    }
  }

  /** How far each document is projected. */
  ghost function Generations(documents: seq<Database>): (g: seq<nat>)
    reads documents
    ensures |g| == |documents| && forall i :: 0 <= i < |g| ==> g[i] == documents[i].projectedRev
  {
    seq(|documents|, i requires 0 <= i < |documents| reads documents => documents[i].projectedRev)
  }

  /** Which of the first `n` are further than before. */
  ghost function Advanced(after: seq<nat>, before: seq<nat>, n: nat): set<nat>
    requires n <= |after| == |before|
  {
    set i: nat | i < n && after[i] > before[i]
  }

  lemma OneMoreAdvanced(were: seq<nat>, after: seq<nat>, before: seq<nat>, n: nat, ran: bool)
    requires n < |were| == |after| == |before| && were[n] == before[n]
    requires forall i :: 0 <= i < |were| && i != n ==> after[i] == were[i]
    requires if ran then after[n] > were[n] else after[n] == were[n]
    ensures |Advanced(after, before, n + 1)| == |Advanced(were, before, n)| + if ran then 1 else 0
  {
    assert Advanced(after, before, n + 1) == Advanced(were, before, n) + if ran then {n} else {};
  }

  method CatchUp(d: Database, now: Time) returns (ran: bool)
    requires Idle(d)
    modifies d
    ensures Idle(d) && Current(d) && d.committed == old(d.committed)
    ensures if ran then d.projectedRev > old(d.projectedRev) else d.projectedRev == old(d.projectedRev)
  {
    hide Inv, Exact;
    ran := false;
    ProjectionIsBehind(d.view, d.root, d.State());
    CurrentIsExact(d.view, d.root, d.State());
    if d.projectedRev < d.sourceRev {
      ran := d.ProjectDocument(now);
    }
  }

  lemma MergedIsCommitted(view: View, root: Id, db: Db)
    requires Inv(view, root, db)
    ensures Merged(db.rows) == db.committed == db.history[|db.history| - 1] && |db.history| == db.sourceRev + 1
    ensures db.projectedRev <= db.sourceRev && (db.rows == map[] <==> db.sourceRev == 0)
    ensures db.rows.Keys <= db.used
  {
  }

  lemma ValidParents(view: View, root: Id, db: Db)
    requires Inv(view, root, db)
    ensures ParentsPresent(db.table)
  {
  }

  lemma CommitOutcome(view: View, root: Id, db: Db, snapshot: Snapshot, now: Time)
    requires Inv(view, root, db) && snapshot in db.loaded
    ensures snapshot.revision <= db.sourceRev
    ensures root in view(snapshot.ops) ==>
      var after := Project(db.table, ProjectedRows(view(snapshot.ops), root), now);
      ParentsPresent(after) && Exact(after, view(snapshot.ops), root)
  {
    hide Project, ProjectedRows, Exact, ParentsPresent;
    ValidParents(view, root, db);
    if root in view(snapshot.ops) {
      ProjectionIsExact(db.table, view(snapshot.ops), root, now);
      ProjectionKeepsParents(db.table, view(snapshot.ops), root, now);
    }
  }

  lemma CollectedAreNotLive(view: View, root: Id, db: Db)
    requires Inv(view, root, db) && db.lock.Collecting?
    ensures forall id :: id in db.lock.items ==> id in db.table && !IsLiveRow(db.table, id)
  {
    forall id | id in db.lock.items
      ensures id in db.table && !IsLiveRow(db.table, id)
    {
      assert Leaf(db.table, id);
    }
  }

  lemma ProjectionIsBehind(view: View, root: Id, db: Db)
    requires Inv(view, root, db)
    ensures db.projectedRev <= db.sourceRev
  {
  }

  lemma CurrentIsExact(view: View, root: Id, db: Db)
    requires Inv(view, root, db)
    ensures db.projectedRev == db.sourceRev > 0 && root in view(db.committed) ==>
      Exact(db.table, view(db.committed), root)
  {
  }

  lemma OneRowHolds(view: View, root: Id, db: Db, row: RowId)
    requires Inv(view, root, db) && db.rows.Keys == {row}
    ensures db.rows == map[row := db.committed]
  {
    var none: Rows := map[];
    MergedInsert(none, row, db.rows[row]);
    assert Merged(none) == {};
    MapEquality(db.rows, none[row := db.rows[row]]);
    assert Merged(db.rows) == db.rows[row];
  }

  ghost function MergedOf(rows: Rows, done: set<RowId>): set<Op> {
    set id, op | id in done && id in rows && op in rows[id] :: op
  }

  lemma MergedOfStep(rows: Rows, done: set<RowId>, id: RowId)
    requires id in rows
    ensures MergedOf(rows, done + {id}) == MergedOf(rows, done) + rows[id]
  {
    var before, after := MergedOf(rows, done), MergedOf(rows, done + {id});
    forall op
      ensures op in after <==> op in before + rows[id]
    {
      if op in before {
        var z :| z in done && z in rows && op in rows[z];
        assert z in done + {id};
      }
      if op in rows[id] {
        assert id in done + {id};
      }
    }
    SetEquality(after, before + rows[id]);
  }

  lemma MergedOfAll(rows: Rows)
    ensures MergedOf(rows, rows.Keys) == Merged(rows)
  {
    SetEquality(MergedOf(rows, rows.Keys), Merged(rows));
  }
}
