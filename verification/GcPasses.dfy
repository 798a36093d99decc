/**
 Tombstone collection on the relational table: each pass removes a bounded batch
 of leaf tombstones, oldest first; repeated passes work their way up.
 */
module GcPasses {
  import opened Collections
  import opened TreeTheory
  import opened Projection
  import L = ReplicaLedger

  /** Tombstoned, older than the cutoff, and acknowledged by every replica in the ledger. */
  predicate Ripe(row: TableRow, cutoff: Time, ledger: L.Ledger) {
    row.deletedAt.Some? && row.deletedAt.value < cutoff && !L.Blocks(ledger, row.deletedAt.value)
  }

  predicate HasChild(table: Table, id: Id) {
    exists c :: c in table && table[c].parentId == Some(id)
  }

  /** What one pass may remove. */
  function Eligible(table: Table, cutoff: Time, ledger: L.Ledger): set<Id> {
    set id | id in table && Ripe(table[id], cutoff, ledger) && !HasChild(table, id)
  }

  // ---------- the table as a graph ----------

  ghost function ParentGraph(table: Table): map<Id, Id> {
    map id | id in table && table[id].parentId.Some? :: table[id].parentId.value
  }

  /** The row and everything below it is ripe, and it is not part of a loop of stale rows. */
  ghost predicate Removable(table: Table, cutoff: Time, ledger: L.Ledger, id: Id) {
    && id in table && !OnCycle(ParentGraph(table), id)
    && forall y :: y in table && Above(ParentGraph(table), id, y) ==> Ripe(table[y], cutoff, ledger)
  }

  // The parent row of `id` is gone.
  ghost predicate Orphaned(was: Table, now: Table, id: Id)
    requires id in was
  {
    was[id].parentId.Some? && was[id].parentId.value in was && was[id].parentId.value !in now
  }

  // `now` is what passes have left of `was`: removable rows are gone, each after its children.
  ghost predicate Remains(was: Table, now: Table, cutoff: Time, ledger: L.Ledger) {
    && now.Keys <= was.Keys && (forall id :: id in now ==> now[id] == was[id])
    && (forall id :: id in was && id !in now ==> Removable(was, cutoff, ledger, id))
    && forall id :: id in was && Orphaned(was, now, id) ==> id !in now
  }

  lemma ChildIsBelow(table: Table, id: Id, c: Id)
    requires c in table && table[c].parentId == Some(id)
    ensures Above(ParentGraph(table), id, c) && c in ParentGraph(table) && ParentGraph(table)[c] == id
  {
    var g := ParentGraph(table);
    assert Up(g, c, 0) == c;
    assert Up(g, c, 1) == id;
  }

  /** A row whose children are all gone is removable once it is ripe itself. */
  lemma LeafIsRemovable(was: Table, now: Table, cutoff: Time, ledger: L.Ledger, id: Id)
    requires Remains(was, now, cutoff, ledger) && id in Eligible(now, cutoff, ledger)
    ensures Removable(was, cutoff, ledger, id)
  {
    hide Ripe;
    var g := ParentGraph(was);
    forall y | y in was && Above(g, id, y)
      ensures Ripe(was[y], cutoff, ledger)
    {
      if y != id {
        var c := ChildToward(was, id, y);
        LeafChildIsGone(was, now, cutoff, ledger, id, c);
        assert Removable(was, cutoff, ledger, c);
      }
    }
    if OnCycle(g, id) {
      var p: nat :| p > 0 && Up(g, id, p) == id;
      var c := Up(g, id, p - 1);
      var _ := CycleOrbit(g, id, p - 1);
      assert g[c] == id;
      LeafChildIsGone(was, now, cutoff, ledger, id, c);
      assert false;
    }
  }

  lemma LeafChildIsGone(was: Table, now: Table, cutoff: Time, ledger: L.Ledger, id: Id, c: Id)
    requires Remains(was, now, cutoff, ledger) && id in Eligible(now, cutoff, ledger)
    requires c in ParentGraph(was) && ParentGraph(was)[c] == id
    ensures c in was && c !in now
  {
    assert !HasChild(now, id);
    assert forall x :: x in now ==> now[x].parentId != Some(id);
  }

  /** Below `id` every row hangs under one of its children. */
  lemma ChildToward(table: Table, id: Id, y: Id) returns (c: Id)
    requires y != id && Above(ParentGraph(table), id, y)
    ensures c in ParentGraph(table) && ParentGraph(table)[c] == id && Above(ParentGraph(table), c, y)
  {
    var g := ParentGraph(table);
    var k := FirstMeeting(g, id, y);
    assert Up(g, y, 0) == y;
    c := Up(g, y, k - 1);
    assert c in g && g[c] == id;
  }

  lemma RemainsStep(was: Table, now: Table, cutoff: Time, ledger: L.Ledger, gone: set<Id>)
    requires Remains(was, now, cutoff, ledger) && gone <= Eligible(now, cutoff, ledger)
    ensures Remains(was, now - gone, cutoff, ledger)
  {
    hide Ripe, Removable;
    var after := now - gone;
    forall id | id in was && id !in after
      ensures Removable(was, cutoff, ledger, id)
    {
      if id in now {
        LeafIsRemovable(was, now, cutoff, ledger, id);
      }
    }
    forall id | id in was && Orphaned(was, after, id)
      ensures id !in after
    {
      var p := was[id].parentId.value;
      if p in now {
        assert !HasChild(now, p);
        assert forall x :: x in now ==> now[x].parentId != Some(p);
      }
    }
  }

  /** Removing leaves keeps every remaining row's parent row. */
  lemma LeavesGoParentsStay(table: Table, cutoff: Time, ledger: L.Ledger, gone: set<Id>)
    requires ParentsPresent(table) && gone <= Eligible(table, cutoff, ledger)
    ensures ParentsPresent(table - gone)
  {
    forall id | id in table - gone && table[id].parentId.Some?
      ensures table[id].parentId.value in table - gone
    {
      var p := table[id].parentId.value;
      assert HasChild(table, p);
    }
  }

  // ---------- nothing removable is left at the end ----------

  ghost function Below(table: Table, id: Id): set<Id> {
    set y | y in table && Above(ParentGraph(table), id, y)
  }

  lemma {:induction false} NothingIsLeft(was: Table, now: Table, cutoff: Time, ledger: L.Ledger, id: Id)
    requires Remains(was, now, cutoff, ledger) && Eligible(now, cutoff, ledger) == {}
    requires Removable(was, cutoff, ledger, id)
    ensures id !in now
    decreases |Below(was, id)|
  {
    hide Ripe, Remains;
    if id in now {
      RemainsAsWas(was, now, cutoff, ledger, id);
      SelfIsRipe(was, cutoff, ledger, id);
      assert id !in Eligible(now, cutoff, ledger);
      assert HasChild(now, id);
      var c :| c in now && now[c].parentId == Some(id);
      RemainsAsWas(was, now, cutoff, ledger, c);
      ChildIsBelow(was, id, c);
      ChildIsRemovable(was, cutoff, ledger, id, c);
      NothingIsLeft(was, now, cutoff, ledger, c);
      assert false;
    }
  }

  lemma RemainsAsWas(was: Table, now: Table, cutoff: Time, ledger: L.Ledger, id: Id)
    requires Remains(was, now, cutoff, ledger) && id in now
    ensures id in was && now[id] == was[id]
  {
  }

  lemma SelfIsRipe(table: Table, cutoff: Time, ledger: L.Ledger, id: Id)
    requires Removable(table, cutoff, ledger, id)
    ensures Ripe(table[id], cutoff, ledger)
  {
    assert Up(ParentGraph(table), id, 0) == id;
    assert Above(ParentGraph(table), id, id);
  }

  lemma ChildIsRemovable(table: Table, cutoff: Time, ledger: L.Ledger, id: Id, c: Id)
    requires Removable(table, cutoff, ledger, id) && c in table
    requires c in ParentGraph(table) && ParentGraph(table)[c] == id
    ensures Removable(table, cutoff, ledger, c) && |Below(table, c)| < |Below(table, id)|
  {
    hide Ripe;
    var g := ParentGraph(table);
    ChildIsBelow(table, id, c);
    forall y | y in table && Above(g, c, y)
      ensures Above(g, id, y)
    {
      AboveTransitive(g, id, c, y);
    }
    NotThroughChild(g, id, c);
    assert Up(g, id, 0) == id;
    assert id in Below(table, id) && id !in Below(table, c);
    StrictSubsetSize(Below(table, c), Below(table, id));
  }

  /** A node on no cycle is not above its parent's way back. */
  lemma NotThroughChild(g: map<Id, Id>, id: Id, c: Id)
    requires !OnCycle(g, id) && c in g && g[c] == id
    ensures !Above(g, c, id) && !OnCycle(g, c)
  {
    assert Up(g, id, 0) == id;
    forall k: nat
      ensures Up(g, id, k) != c
    {
      assert Up(g, id, k) == c ==> Up(g, id, k + 1) == id;
      if id !in g {
        UpTerminal(g, id, 0, k);
      }
    }
    assert Up(g, c, 0) == c;
    assert Up(g, c, 1) == id;
    if OnCycle(g, c) {
      var _ := CycleOrbit(g, c, 1);
    }
  }

  /** When a pass finds nothing, exactly the removable rows are gone. */
  lemma PassesRemoveExactly(was: Table, now: Table, cutoff: Time, ledger: L.Ledger, id: Id)
    requires Remains(was, now, cutoff, ledger) && Eligible(now, cutoff, ledger) == {} && id in was
    ensures id !in now <==> Removable(was, cutoff, ledger, id)
  {
    if Removable(was, cutoff, ledger, id) {
      NothingIsLeft(was, now, cutoff, ledger, id);
    }
  }

  lemma NothingRemovedYet(table: Table, cutoff: Time, ledger: L.Ledger)
    ensures Remains(table, table, cutoff, ledger)
  {
  }

  // ---------- the passes ----------

  function DeletedAt(table: Table, id: Id): Time {
    if id in table && table[id].deletedAt.Some? then table[id].deletedAt.value else 0
  }

  ghost predicate IsOldest(table: Table, ids: set<Id>, id: Id) {
    id in ids && forall x :: x in ids ==> DeletedAt(table, id) <= DeletedAt(table, x)
  }

  method Oldest(table: Table, ids: set<Id>) returns (id: Id)
    requires ids != {}
    ensures IsOldest(table, ids, id)
  {
    id := Pick(ids);
    var left := ids - {id};
    while left != {}
      invariant left <= ids && id in ids
      invariant forall x :: x in ids && x !in left ==> DeletedAt(table, id) <= DeletedAt(table, x)
      decreases |left|
    {
      var x := Pick(left);
      if DeletedAt(table, x) < DeletedAt(table, id) {
        id := x;
      }
      left := left - {x};
    }
  }

  /** A batch: at most `limit` eligible rows, and none left out is older than one taken. */
  ghost predicate IsBatch(table: Table, eligible: set<Id>, batch: set<Id>, limit: nat) {
    && batch <= eligible && |batch| <= limit && (|batch| < limit ==> batch == eligible)
    && forall x, y :: x in batch && y in eligible && y !in batch ==> DeletedAt(table, x) <= DeletedAt(table, y)
  }

  /** The effect of a pass: one batch is gone. */
  ghost predicate OnePass(before: Table, after: Table, cutoff: Time, ledger: L.Ledger, batchSize: nat, removed: nat) {
    exists batch :: (
      IsBatch(before, Eligible(before, cutoff, ledger), batch, batchSize)
      && removed == |batch| && after == before - batch)
  }

  /**
   A tombstone older than the cutoff that no row has as its parent and that every
   replica in the ledger has synced strictly after.
   */
  ghost predicate MayGo(table: Table, cutoff: Time, ledger: L.Ledger, id: Id) {
    && id in table && table[id].deletedAt.Some? && table[id].deletedAt.value < cutoff
    && (forall c :: c in table ==> table[c].parentId != Some(id))
    && forall r :: r in ledger ==> ledger[r].lastSynced.Some? && ledger[r].lastSynced.value > table[id].deletedAt.value
  }

  lemma EligibleMeans(table: Table, cutoff: Time, ledger: L.Ledger, id: Id)
    ensures id in Eligible(table, cutoff, ledger) <==> MayGo(table, cutoff, ledger, id)
  {
    if id in table && table[id].deletedAt.Some? {
      BlocksMeans(ledger, table[id].deletedAt.value);
    }
    assert HasChild(table, id) <==> exists c :: c in table && table[c].parentId == Some(id);
  }

  lemma BlocksMeans(ledger: L.Ledger, d: Time)
    ensures !L.Blocks(ledger, d) <==>
      forall r :: r in ledger ==> ledger[r].lastSynced.Some? && ledger[r].lastSynced.value > d
  {
  }

  method EligibleItemIds(table: Table, cutoff: Time, ledger: L.Ledger, limit: nat) returns (batch: set<Id>)
    ensures IsBatch(table, Eligible(table, cutoff, ledger), batch, limit)
    ensures |batch| <= limit
    ensures forall id :: id in batch ==> MayGo(table, cutoff, ledger, id)
    ensures forall id :: MayGo(table, cutoff, ledger, id) && id !in batch ==>
      |batch| == limit && forall x :: x in batch ==> table[x].deletedAt.value <= table[id].deletedAt.value
  {
    hide Eligible, DeletedAt, MayGo;
    forall id
      ensures id in Eligible(table, cutoff, ledger) <==> MayGo(table, cutoff, ledger, id)
      ensures MayGo(table, cutoff, ledger, id) ==>
        id in table && table[id].deletedAt.Some? && DeletedAt(table, id) == table[id].deletedAt.value
    {
      EligibleMeans(table, cutoff, ledger, id);
      DeletedAtIs(table, cutoff, ledger, id);
    }
    var eligible := Eligible(table, cutoff, ledger);
    batch := {};
    while |batch| < limit && batch != eligible
      invariant batch <= eligible && |batch| <= limit
      invariant forall x, y :: x in batch && y in eligible && y !in batch ==> DeletedAt(table, x) <= DeletedAt(table, y)
      decreases |eligible - batch|
    {
      SomeAreLeft(eligible, batch);
      var x := Oldest(table, eligible - batch);
      StrictSubsetSize(eligible - (batch + {x}), eligible - batch);
      batch := batch + {x};
    }
  }

  lemma DeletedAtIs(table: Table, cutoff: Time, ledger: L.Ledger, id: Id)
    ensures MayGo(table, cutoff, ledger, id) ==>
      id in table && table[id].deletedAt.Some? && DeletedAt(table, id) == table[id].deletedAt.value
  {
  }

  lemma SomeAreLeft(all: set<Id>, some: set<Id>)
    requires some <= all && some != all
    ensures all - some != {}
  {
    var x :| x in all && x !in some;
    assert x in all - some;
  }

  /** The row is live, or not older than the cutoff, or some replica in the ledger has not synced after it. */
  ghost predicate Protected(row: TableRow, cutoff: Time, ledger: L.Ledger) {
    || row.deletedAt.None?
    || row.deletedAt.value >= cutoff
    || exists r :: r in ledger && (ledger[r].lastSynced.None? || ledger[r].lastSynced.value <= row.deletedAt.value)
  }

  /** `a` is a protected row itself or stands above one. */
  ghost predicate Spared(table: Table, cutoff: Time, ledger: L.Ledger, id: Id, a: Id) {
    id in table && a in table && Above(ParentGraph(table), a, id) && Protected(table[id], cutoff, ledger)
  }

  lemma RipeIsNotProtected(row: TableRow, cutoff: Time, ledger: L.Ledger)
    ensures Ripe(row, cutoff, ledger) <==> !Protected(row, cutoff, ledger)
  {
    if row.deletedAt.Some? {
      BlocksMeans(ledger, row.deletedAt.value);
    }
  }

  lemma SparedStays(table: Table, cutoff: Time, ledger: L.Ledger, id: Id, a: Id)
    requires Spared(table, cutoff, ledger, id, a)
    ensures a !in Eligible(table, cutoff, ledger)
  {
    hide Ripe, Protected;
    RipeIsNotProtected(table[id], cutoff, ledger);
    if a != id {
      var c := ChildToward(table, a, id);
      assert table[c].parentId == Some(a);
      assert HasChild(table, a);
    }
  }

  lemma SparedIsNotRemovable(table: Table, cutoff: Time, ledger: L.Ledger, id: Id, a: Id)
    requires Spared(table, cutoff, ledger, id, a)
    ensures a in table && !Removable(table, cutoff, ledger, a)
  {
    RipeIsNotProtected(table[id], cutoff, ledger);
  }

  class ItemsTable {
    var rows: Table

    constructor (rows: Table)
      ensures this.rows == rows
    {
      this.rows := rows;
    }

    /** One locked pass over the document; tells how many rows it removed. */
    method CollectPass(cutoff: Time, ledger: L.Ledger, batchSize: nat) returns (removed: nat)
      requires ParentsPresent(rows)
      modifies this
      ensures ParentsPresent(rows) && removed <= batchSize
      ensures OnePass(old(rows), rows, cutoff, ledger, batchSize, removed)
      ensures forall id :: id in rows ==> id in old(rows) && rows[id] == old(rows)[id]
      ensures removed == |old(rows).Keys - rows.Keys|
      ensures forall id, a :: Spared(old(rows), cutoff, ledger, id, a) ==> a in rows
    {
      ghost var was := rows;
      var batch := EligibleItemIds(rows, cutoff, ledger, batchSize);
      LeavesGoParentsStay(rows, cutoff, ledger, batch);
      removed := |batch|;
      rows := rows - batch;
      assert was.Keys - rows.Keys == batch;
      forall id, a | Spared(was, cutoff, ledger, id, a)
        ensures a in rows
      {
        SparedStays(was, cutoff, ledger, id, a);
      }
    }

    /** Passes with the same ledger and cutoff until one finds nothing: exactly the removable rows are gone. */
    method CollectAll(cutoff: Time, ledger: L.Ledger, batchSize: nat)
      requires ParentsPresent(rows) && batchSize > 0
      modifies this
      ensures ParentsPresent(rows)
      ensures forall id :: id in old(rows) ==> (id !in rows <==> Removable(old(rows), cutoff, ledger, id))
      ensures forall id :: id in rows ==> id in old(rows) && rows[id] == old(rows)[id]
      ensures forall id, a :: Spared(old(rows), cutoff, ledger, id, a) ==> a in rows
    {
      hide Eligible, Removable, ParentsPresent, Remains, Spared, OnePass;
      NothingRemovedYet(rows, cutoff, ledger);
      var removed := batchSize;
      while removed > 0
        invariant ParentsPresent(rows) && Remains(old(rows), rows, cutoff, ledger)
        invariant removed == 0 ==> Eligible(rows, cutoff, ledger) == {}
        decreases |rows|, removed
      {
        ghost var before := rows;
        removed := CollectPass(cutoff, ledger, batchSize);
        PassRemains(old(rows), before, rows, cutoff, ledger, removed, batchSize);
      }
      forall id | id in old(rows)
        ensures id !in rows <==> Removable(old(rows), cutoff, ledger, id)
      {
        PassesRemoveExactly(old(rows), rows, cutoff, ledger, id);
      }
      RemainsSame(old(rows), rows, cutoff, ledger);
      forall id, a | Spared(old(rows), cutoff, ledger, id, a)
        ensures a in rows
      {
        SparedIsNotRemovable(old(rows), cutoff, ledger, id, a);
      }
    }
  }

  lemma RemainsSame(was: Table, now: Table, cutoff: Time, ledger: L.Ledger)
    requires Remains(was, now, cutoff, ledger)
    ensures forall id :: id in now ==> id in was && now[id] == was[id]
  {
  }

  lemma PassRemains(was: Table, before: Table, after: Table, cutoff: Time, ledger: L.Ledger, removed: nat, batchSize: nat)
    requires Remains(was, before, cutoff, ledger) && batchSize > 0
    requires OnePass(before, after, cutoff, ledger, batchSize, removed)
    ensures Remains(was, after, cutoff, ledger)
    ensures removed == 0 ==> Eligible(after, cutoff, ledger) == {} && after == before
    ensures removed > 0 ==> |after| < |before|
  {
    hide Eligible, Remains, DeletedAt;
    var batch :| IsBatch(before, Eligible(before, cutoff, ledger), batch, batchSize)
      && removed == |batch| && after == before - batch;
    RemainsStep(was, before, cutoff, ledger, batch);
    if removed == 0 {
      assert batch == {};
      assert after == before;
    } else {
      EligibleAreRows(before, cutoff, ledger);
      assert batch != {};
      var x :| x in batch;
      assert x in before.Keys && x !in after.Keys;
      StrictSubsetSize(after.Keys, before.Keys);
    }
  }

  lemma EligibleAreRows(table: Table, cutoff: Time, ledger: L.Ledger)
    ensures Eligible(table, cutoff, ledger) <= table.Keys
  {
  }
}
