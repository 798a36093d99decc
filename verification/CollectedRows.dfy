/**
 A run in which a collected row comes back: a pass that read the document before
 the item's key was removed commits after the row is gone.
 */
module CollectedRows {
  import opened Collections
  import opened TreeTheory
  import opened Siblings
  import opened EffectiveTree
  import opened OutlineModel
  import opened Projection
  import opened Updates
  import opened DocumentStore

  const ROOT := Id(1)

  const GONE := Id(2)

  function RootItem(): Item {
    Item(ROOT_PARENT_SENTINEL, 0.0, false, "", false)
  }

  // The document with its deleted item.
  function WithTombstone(): Items {
    map[ROOT := RootItem(), GONE := Item(ROOT, 0.0, true, "", false)]
  }

  /** The first operation brings a deleted item, the second says nothing about it, the third removes its key. */
  function Says(ops: set<Op>): Items {
    if Op(3) in ops then map[ROOT := RootItem()]
    else if Op(1) in ops then WithTombstone()
    else map[]
  }

  ghost function View(): DocumentStore.View {
    (ops: set<Op>) => Says(ops)
  }

  lemma RunExtends(states: seq<Db>, action: Action)
    requires Run(View(), ROOT, states) && Enabled(states[|states| - 1], action)
    ensures Run(View(), ROOT, states + [After(View(), ROOT, states[|states| - 1], action)])
  {
    hide After, Enabled;
    var more := states + [After(View(), ROOT, states[|states| - 1], action)];
    forall i | 0 < i < |more|
      ensures Next(View(), ROOT, more[i - 1], more[i])
    {
      if i < |states| {
        assert Next(View(), ROOT, states[i - 1], states[i]);
      }
    }
  }

  lemma TombstoneRows()
    ensures ProjectedRows(WithTombstone(), ROOT) ==
      map[ROOT := Projected(None, 0.0, "", false, false), GONE := Projected(Some(ROOT), 0.0, "", false, true)]
  {
    var items := WithTombstone();
    var raw := RawOf(items);
    EffectiveTreeIsRooted(raw, ROOT);
    assert EdgesOf(items, ROOT)[GONE] == ROOT;
    DeletedIsInherited(raw, ROOT, GONE);
    assert ROOT !in Deleted(raw, ROOT);
    hide EdgesOf, Deleted;
    var rows := ProjectedRows(items, ROOT);
    assert rows.Keys == {ROOT, GONE};
    assert rows[ROOT] == Projected(None, 0.0, "", false, false);
    assert rows[GONE] == Projected(Some(ROOT), 0.0, "", false, true);
  }

  /** Projecting the tombstone leaves a childless tombstoned row. */
  lemma TombstoneIsLeaf(now: Time)
    ensures var table := Project(Initial(ROOT).table, ProjectedRows(WithTombstone(), ROOT), now);
      ParentsPresent(table) && Leaf(table, GONE)
  {
    TombstoneRows();
    hide ProjectedRows;
  }

  /** One update, loaded and projected: the table has the tombstone at generation 1. */
  lemma TombstoneIsProjected(now: Time) returns (states: seq<Db>)
    ensures Run(View(), ROOT, states)
    ensures var db := states[|states| - 1];
      && db.sourceRev == db.projectedRev == 1 && db.lock.Free? && db.used == {RowId(1)} && db.committed == {Op(1)}
      && Leaf(db.table, GONE)
  {
    var s0 := Initial(ROOT);
    var update := Append(RowId(1), {Op(1)});
    var s1 := After(View(), ROOT, s0, update);
    var s2 := After(View(), ROOT, s1, Load);
    hide After, Enabled, Run, Next;
    states := [s0];
    assert Run(View(), ROOT, states) by {
      StartIsRun();
    }
    assert Enabled(s0, update) by {
      FirstUpdate();
    }
    RunExtends(states, update);
    states := states + [s1];
    LoadIsEnabled(s1);
    RunExtends(states, Load);
    states := states + [s2];
    var snapshot := TombstoneCommits(now);
    RunExtends(states, Commit(snapshot, now));
    states := states + [After(View(), ROOT, s2, Commit(snapshot, now))];
  }

  lemma StartIsRun()
    ensures Run(View(), ROOT, [Initial(ROOT)])
  {
  }

  lemma FirstUpdate()
    ensures Enabled(Initial(ROOT), Append(RowId(1), {Op(1)}))
  {
  }

  lemma LoadIsEnabled(db: Db)
    ensures Enabled(db, Load)
  {
  }

  lemma TombstoneCommits(now: Time) returns (snapshot: Snapshot)
    ensures Enabled(Initial(ROOT), Append(RowId(1), {Op(1)}))
    ensures var s1 := After(View(), ROOT, Initial(ROOT), Append(RowId(1), {Op(1)}));
      && Enabled(s1, Load)
      && var s2 := After(View(), ROOT, s1, Load);
         && Enabled(s2, Commit(snapshot, now))
         && var db := After(View(), ROOT, s2, Commit(snapshot, now));
            && db.sourceRev == db.projectedRev == 1 && db.lock.Free? && db.used == {RowId(1)} && db.committed == {Op(1)}
            && Leaf(db.table, GONE)
  {
    hide Merged, ProjectedRows, Project, Leaf, ParentsPresent;
    var none: Rows := map[];
    MergedInsert(none, RowId(1), {Op(1)});
    NothingMerged();
    snapshot := Snapshot({Op(1)}, 1);
    var s1 := After(View(), ROOT, Initial(ROOT), Append(RowId(1), {Op(1)}));
    assert RowId(1) in s1.rows;
    assert SnapshotOf(s1) == snapshot;
    assert View()(snapshot.ops) == WithTombstone();
    TombstoneIsLeaf(now);
  }

  lemma NothingMerged()
    ensures Merged(map[]) == {}
  {
  }

  /**
   The tombstone is projected; an update is appended and a pass loads at
   generation 2; the collection removes the key at generation 3 and then the row;
   the pass commits, and the row is back although no document has the item.
   */
  lemma CollectedRowComesBack(now: Time, later: Time) returns (states: seq<Db>, gone: nat)
    ensures Run(View(), ROOT, states) && gone + 1 < |states|
    ensures GONE !in states[gone].table
    ensures var db := states[|states| - 1];
      && GONE in db.table && db.projectedRev == 2 < db.sourceRev == 3 && GONE !in View()(db.committed)
  {
    states := TombstoneIsProjected(now);
    var s3 := states[|states| - 1];
    RunHolds(View(), ROOT, states, |states| - 1);
    var snapshot, s8 := PassOverlapsCollection(s3);
    var s4 := After(View(), ROOT, s3, Append(RowId(2), {Op(2)}));
    var s5 := After(View(), ROOT, s4, Load);
    var s6 := After(View(), ROOT, s5, CollectDecide({GONE}));
    var s7 := After(View(), ROOT, s6, CollectRemoveKeys(RowId(3), {Op(3)}));
    hide After, Enabled, Run, Next, Inv, Leaf;
    RunExtends(states, Append(RowId(2), {Op(2)}));
    states := states + [s4];
    RunExtends(states, Load);
    states := states + [s5];
    RunExtends(states, CollectDecide({GONE}));
    states := states + [s6];
    RunExtends(states, CollectRemoveKeys(RowId(3), {Op(3)}));
    states := states + [s7];
    RunExtends(states, CollectCommit);
    states := states + [s8];
    gone := |states| - 1;
    RunHolds(View(), ROOT, states, gone);
    RowReturns(s8, snapshot, later);
    RunExtends(states, Commit(snapshot, later));
    states := states + [After(View(), ROOT, s8, Commit(snapshot, later))];
  }

  /** The steps from the load to the removal of the row. */
  lemma PassOverlapsCollection(s3: Db) returns (snapshot: Snapshot, s8: Db)
    requires Inv(View(), ROOT, s3) && s3.sourceRev == s3.projectedRev == 1 && s3.lock.Free?
    requires s3.used == {RowId(1)} && s3.committed == {Op(1)} && Leaf(s3.table, GONE)
    ensures Enabled(s3, Append(RowId(2), {Op(2)}))
    ensures var s4 := After(View(), ROOT, s3, Append(RowId(2), {Op(2)}));
      && var s5 := After(View(), ROOT, s4, Load);
      && Enabled(s5, CollectDecide({GONE}))
      && var s6 := After(View(), ROOT, s5, CollectDecide({GONE}));
      && Enabled(s6, CollectRemoveKeys(RowId(3), {Op(3)}))
      && var s7 := After(View(), ROOT, s6, CollectRemoveKeys(RowId(3), {Op(3)}));
      && Enabled(s7, CollectCommit) && s8 == After(View(), ROOT, s7, CollectCommit)
    ensures snapshot in s8.loaded && snapshot == Snapshot({Op(1), Op(2)}, 2) && s8.lock.Free?
    ensures s8.projectedRev == 1 && s8.sourceRev == 3 && s8.committed == {Op(1), Op(2), Op(3)} && GONE !in s8.table
  {
    hide Merged, Leaf, Inv, ParentsPresent;
    var s4 := After(View(), ROOT, s3, Append(RowId(2), {Op(2)}));
    StepHolds(View(), ROOT, s3, Append(RowId(2), {Op(2)}));
    MergedIsCommitted(View(), ROOT, s4);
    snapshot := SnapshotOf(s4);
    var s5 := After(View(), ROOT, s4, Load);
    var s6 := After(View(), ROOT, s5, CollectDecide({GONE}));
    var s7 := After(View(), ROOT, s6, CollectRemoveKeys(RowId(3), {Op(3)}));
    s8 := After(View(), ROOT, s7, CollectCommit);
  }

  lemma RowReturns(s8: Db, snapshot: Snapshot, later: Time)
    requires Inv(View(), ROOT, s8) && snapshot in s8.loaded && snapshot == Snapshot({Op(1), Op(2)}, 2) && s8.lock.Free?
    requires s8.projectedRev == 1 && s8.sourceRev == 3 && s8.committed == {Op(1), Op(2), Op(3)} && GONE !in s8.table
    ensures Enabled(s8, Commit(snapshot, later))
    ensures var db := After(View(), ROOT, s8, Commit(snapshot, later));
      && GONE in db.table && db.projectedRev == 2 && db.sourceRev == 3 && GONE !in View()(db.committed)
  {
    hide Merged, Inv, Exact, Project, ProjectedRows, ParentsPresent;
    MergedIsCommitted(View(), ROOT, s8);
    CollectedRowReturns(View(), ROOT, s8, snapshot, later, GONE, 3);
    CommitOutcome(View(), ROOT, s8, snapshot, later);
  }
}
