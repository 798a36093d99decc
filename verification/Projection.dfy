/**
 From merged items to the relational `items` table: the projected rows, the
 change-guarded upsert and the tombstoning of rows the document no longer has.
 */
module Projection {
  import opened Collections
  import opened TreeTheory
  import opened Siblings
  import opened EffectiveTree
  import opened OutlineModel
  import OutlineIndex

  // `parentId` is absent for the document root.
  datatype Projected = Projected(parentId: Option<Id>, rank: Rank, content: string, isCompleted: bool, deleted: bool)

  type Time = nat

  datatype TableRow = TableRow(parentId: Option<Id>, rank: Rank, content: string, isCompleted: bool,
                               deletedAt: Option<Time>, version: nat)

  type Table = map<Id, TableRow>

  // ---------- projected rows ----------

  ghost function ProjectedRow(items: Items, root: Id, id: Id): Projected
    requires id in items
  {
    var it := items[id];
    Projected(if id == root then None else Some(EdgesOf(items, root)[id]),
              it.rank, it.content, it.isCompleted, id in Deleted(RawOf(items), root))
  }

  ghost function ProjectedRows(items: Items, root: Id): map<Id, Projected> {
    map id | id in items :: ProjectedRow(items, root, id)
  }

  function RowFrom(t: Tree, rootId: Id, id: Id, it: Item): Projected {
    Projected(if id == rootId || id !in t.parents || t.parents[id] == ROOT_PARENT_SENTINEL then None
              else Some(t.parents[id]),
              it.rank, it.content, it.isCompleted, id in t.deleted)
  }

  method ProjectSnapshots(items: Items, rootId: Id) returns (rows: map<Id, Projected>)
    requires rootId != ROOT_PARENT_SENTINEL && ROOT_PARENT_SENTINEL !in items
    ensures rows == ProjectedRows(items, rootId)
  {
    var nodes := OutlineIndex.AllNodes(items);
    var t := DeriveEffectiveTree(nodes, rootId);
    hide Interpret, ProjectedRow;
    rows := map id | id in items :: RowFrom(t, rootId, id, items[id]);
    forall id | id in items
      ensures rows[id] == ProjectedRow(items, rootId, id)
    {
      RowFromTree(items, rootId, t, id);
    }
  }

  lemma RowFromTree(items: Items, root: Id, t: Tree, id: Id)
    requires root != ROOT_PARENT_SENTINEL && ROOT_PARENT_SENTINEL !in items && id in items
    requires t == Interpret(RawOf(items), root)
    ensures RowFrom(t, root, id, items[id]) == ProjectedRow(items, root, id)
  {
    EffectiveTreeIsRooted(RawOf(items), root);
  }

  /** Rows whose parent row is among the projected ones; the others are skipped. */
  function Projectable(rows: map<Id, Projected>): (r: map<Id, Projected>)
    ensures forall id :: id in r <==> id in rows && (rows[id].parentId.None? || rows[id].parentId.value in rows)
    ensures forall id :: id in r ==> r[id] == rows[id]
  {
    map id | id in rows && (rows[id].parentId.None? || rows[id].parentId.value in rows) :: rows[id]
  }

  /** The filter drops nothing exactly when the root is in the document, or nothing is. */
  lemma FilterDropsNothing(items: Items, root: Id)
    ensures Projectable(ProjectedRows(items, root)) == ProjectedRows(items, root)
       <==> root in items || items == map[]
  {
    var rows := ProjectedRows(items, root);
    if root !in items && items != map[] {
      var x := SomeRowIsDropped(items, root);
      assert x !in Projectable(rows) && x in rows;
    } else {
      forall id | id in rows
        ensures rows[id].parentId.None? || rows[id].parentId.value in rows
      {
        EffectiveTreeIsRooted(RawOf(items), root);
      }
      hide ProjectedRows;
      MapEquality(Projectable(rows), rows);
    }
  }

  /** Without the root, the topmost rows have no parent row. */
  lemma SomeRowIsDropped(items: Items, root: Id) returns (x: Id)
    requires root !in items && items != map[]
    ensures x in ProjectedRows(items, root) && x !in Projectable(ProjectedRows(items, root))
  {
    EffectiveTreeIsRooted(RawOf(items), root);
    var id :| id in items;
    x := TopmostAbove(EdgesOf(items, root), root, id);
    assert ProjectedRows(items, root)[x].parentId == Some(root);
  }

  lemma TopmostAbove(g: map<Id, Id>, root: Id, id: Id) returns (x: Id)
    requires ClosedUnder(g, root) && Forest(g) && id in g
    ensures x in g && g[x] == root
  {
    var k := ForestReachesRoot(g, root, id);
    var n := FirstMeeting(g, root, id);
    assert Up(g, id, 0) == id;
    x := Up(g, id, n - 1);
    UpTo(g, id, n - 1, n, root);
  }

  lemma UpTo(g: map<Id, Id>, id: Id, k: nat, n: nat, root: Id)
    requires n == k + 1 && Up(g, id, n) == root && Up(g, id, k) != root
    ensures Up(g, id, k) in g && g[Up(g, id, k)] == root
  {
  }

  // ---------- the table ----------

  predicate Unchanged(row: TableRow, p: Projected) {
    && row.parentId == p.parentId && row.rank == p.rank && row.content == p.content
    && row.isCompleted == p.isCompleted && (row.deletedAt.Some? <==> p.deleted)
  }

  /** One row of the batch upsert: the version moves only when a projected field does. */
  function Upserted(existing: Option<TableRow>, p: Projected, now: Time): TableRow {
    match existing
    case None =>
      TableRow(p.parentId, p.rank, p.content, p.isCompleted, if p.deleted then Some(now) else None, 1)
    case Some(row) =>
      if Unchanged(row, p) then row
      else
        TableRow(p.parentId, p.rank, p.content, p.isCompleted,
                 if !p.deleted then None else if row.deletedAt.None? then Some(now) else row.deletedAt,
                 row.version + 1)
  }

  function Lookup(table: Table, id: Id): Option<TableRow> {
    if id in table then Some(table[id]) else None
  }

  /** A live row the document no longer has is tombstoned, never deleted. */
  function Retired(row: TableRow, now: Time): TableRow {
    if row.deletedAt.Some? then row else row.(deletedAt := Some(now), version := row.version + 1)
  }

  /** One projection pass: upsert the projectable rows, retire what is missing. */
  function Project(table: Table, rows: map<Id, Projected>, now: Time): Table {
    var upserts := Projectable(rows);
    map id | id in table.Keys + upserts.Keys ::
      if id in upserts then Upserted(Lookup(table, id), rows[id], now)
      else if id in rows then table[id]
      else Retired(table[id], now)
  }

  /** The same-document parent key: every row's parent row exists. */
  ghost predicate ParentsPresent(table: Table) {
    forall id :: id in table && table[id].parentId.Some? ==> table[id].parentId.value in table
  }

  /** The root, when it is there, and every live item. */
  ghost predicate InOutline(items: Items, root: Id, id: Id) {
    id in items && (id == root || Live(items, root, id))
  }

  predicate HasParents(table: Table)
    ensures HasParents(table) <==> ParentsPresent(table)
  {
    forall id <- table.Keys :: table[id].parentId.None? || table[id].parentId.value in table
  }

  predicate IsLiveRow(table: Table, id: Id) {
    id in table && table[id].deletedAt.None?
  }

  /** The live rows are exactly the root and the live items, with their projected fields. */
  ghost predicate Exact(table: Table, items: Items, root: Id) {
    && (forall id :: IsLiveRow(table, id) <==> InOutline(items, root, id))
    && (forall id :: IsLiveRow(table, id) ==> id in items && Unchanged(table[id], ProjectedRow(items, root, id)))
  }

  lemma RowIsLive(items: Items, root: Id, id: Id)
    requires id in items
    ensures !ProjectedRow(items, root, id).deleted <==> id == root || Live(items, root, id)
  {
  }

  /** With the root in the document, a pass makes the live rows exactly the live items, whatever stood there. */
  lemma ProjectionIsExact(table: Table, items: Items, root: Id, now: Time)
    requires root in items
    ensures Exact(Project(table, ProjectedRows(items, root), now), items, root)
  {
    hide Live, EdgesOf, ProjectedRow, InOutline, Project;
    var after := Project(table, ProjectedRows(items, root), now);
    forall id
      ensures IsLiveRow(after, id) <==> InOutline(items, root, id)
      ensures IsLiveRow(after, id) ==> id in items && Unchanged(after[id], ProjectedRow(items, root, id))
    {
      RowIsExact(table, items, root, now, id);
    }
  }

  lemma RowIsExact(table: Table, items: Items, root: Id, now: Time, id: Id)
    requires root in items
    ensures var after := Project(table, ProjectedRows(items, root), now);
      && (IsLiveRow(after, id) <==> InOutline(items, root, id))
      && (IsLiveRow(after, id) ==> id in items && Unchanged(after[id], ProjectedRow(items, root, id)))
  {
    hide Live, EdgesOf, ProjectedRow;
    FilterDropsNothing(items, root);
    if id in items {
      RowIsLive(items, root, id);
    }
  }

  /** The pass keeps the parent key satisfied. */
  lemma ProjectionKeepsParents(table: Table, items: Items, root: Id, now: Time)
    requires root in items && ParentsPresent(table)
    ensures ParentsPresent(Project(table, ProjectedRows(items, root), now))
  {
    hide Live, EdgesOf;
    var rows := ProjectedRows(items, root);
    FilterDropsNothing(items, root);
    var after := Project(table, rows, now);
    forall id | id in after && after[id].parentId.Some?
      ensures after[id].parentId.value in after
    {
      if id in rows {
        assert after[id].parentId == rows[id].parentId;
        assert id in Projectable(rows);
      } else {
        assert after[id].parentId == table[id].parentId;
      }
    }
  }

  /** Projecting the same rows again changes nothing, versions and tombstone times included. */
  lemma ProjectionIsIdempotent(table: Table, rows: map<Id, Projected>, t1: Time, t2: Time)
    ensures Project(Project(table, rows, t1), rows, t2) == Project(table, rows, t1)
  {
    var once := Project(table, rows, t1);
    var twice := Project(once, rows, t2);
    assert twice.Keys == once.Keys;
    forall id | id in once
      ensures twice[id] == once[id]
    {
    }
    MapEquality(twice, once);
  }

  /**
   Versions count changes of projected fields, and a row that stays deleted keeps
   the time at which it was first deleted.
   */
  lemma ProjectionTouchesOnlyChanges(table: Table, rows: map<Id, Projected>, now: Time, id: Id)
    requires id in table
    ensures id in Project(table, rows, now)
    ensures var before, after := table[id], Project(table, rows, now)[id];
      && (after.version == before.version <==> after == before)
      && before.version <= after.version <= before.version + 1
      && (before.deletedAt.Some? && after.deletedAt.Some? ==> after.deletedAt == before.deletedAt)
      && (before.deletedAt.None? && after.deletedAt.Some? ==> after.deletedAt == Some(now))
  {
  }

  /** What the pass writes, tombstones included: the row has the projected fields, and is a tombstone exactly when they say so. */
  lemma PassWrites(table: Table, rows: map<Id, Projected>, now: Time, id: Id)
    requires id in Projectable(rows)
    ensures var after := Project(table, rows, now);
      && id in after
      && after[id].parentId == rows[id].parentId && after[id].rank == rows[id].rank
      && after[id].content == rows[id].content && after[id].isCompleted == rows[id].isCompleted
      && (after[id].deletedAt.Some? <==> rows[id].deleted)
    ensures id !in table ==>
      && Project(table, rows, now)[id].version == 1
      && Project(table, rows, now)[id].deletedAt == if rows[id].deleted then Some(now) else None
  {
  }

  /** What the pass leaves: a missing row becomes a tombstone with its fields, a skipped one stands, nothing else appears. */
  lemma PassLeaves(table: Table, rows: map<Id, Projected>, now: Time, id: Id)
    requires id !in Projectable(rows)
    ensures var after := Project(table, rows, now);
      && (id in after <==> id in table)
      && (id in table && id in rows ==> after[id] == table[id])
      && (id in table && id !in rows ==>
            && after[id].parentId == table[id].parentId && after[id].rank == table[id].rank
            && after[id].content == table[id].content && after[id].isCompleted == table[id].isCompleted
            && after[id].deletedAt == if table[id].deletedAt.Some? then table[id].deletedAt else Some(now))
  {
  }

  /** The rows a pass writes for a document show its items as they are, deleted ones too. */
  lemma PassShows(table: Table, items: Items, root: Id, now: Time, id: Id)
    requires root in items && id in items
    ensures var after := Project(table, ProjectedRows(items, root), now);
      && id in after
      && (id == root ==> after[id].parentId == None)
      && (id != root ==> id in EdgesOf(items, root) && after[id].parentId == Some(EdgesOf(items, root)[id]))
      && after[id].rank == items[id].rank && after[id].content == items[id].content
      && after[id].isCompleted == items[id].isCompleted
      && (after[id].deletedAt.Some? <==> id in Deleted(RawOf(items), root))
  {
    hide Deleted, EdgesOf;
    FilterDropsNothing(items, root);
    PassWrites(table, ProjectedRows(items, root), now, id);
    if id != root {
      NonRootHasParent(items, root, id);
    }
  }

  lemma NonRootHasParent(items: Items, root: Id, id: Id)
    requires id in items && id != root
    ensures id in EdgesOf(items, root)
  {
  }
}
