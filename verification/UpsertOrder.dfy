/**
 The order in which projected rows are written: every row once, and a row's
 parent before the row unless the parents run in a circle.
 */
module UpsertOrder {
  import opened Collections
  import opened TreeTheory
  import opened Projection

  ghost function RowParents(rows: map<Id, Projected>): map<Id, Id> {
    map id | id in rows && rows[id].parentId.Some? :: rows[id].parentId.value
  }

  ghost predicate NoRepeats(out: seq<Id>) {
    forall i, j :: 0 <= i < j < |out| ==> out[i] != out[j]
  }

  /** A row's parent, when it is among the rows, stands before the row. */
  ghost predicate ParentsFirst(rows: map<Id, Projected>, out: seq<Id>) {
    forall i :: 0 <= i < |out| ==> ParentStands(rows, out[i], out[..i])
  }

  ghost predicate ParentStands(rows: map<Id, Projected>, id: Id, before: seq<Id>) {
    id in rows && rows[id].parentId.Some? && rows[id].parentId.value in rows ==> rows[id].parentId.value in before
  }

  // The guarded rows are those the walk came up from.
  ghost predicate CameFrom(g: map<Id, Id>, guarded: set<Id>, id: Id) {
    forall y :: y in guarded ==> y != id && Above(g, id, y)
  }

  lemma ParentIsNotGuarded(g: map<Id, Id>, guarded: set<Id>, id: Id)
    requires Acyclic(g) && CameFrom(g, guarded, id) && id in g
    ensures CameFrom(g, guarded + {id}, g[id])
  {
    var p := g[id];
    assert Up(g, id, 0) == id;
    assert Up(g, id, 1) == p;
    assert p != id by {
      assert !OnCycle(g, id);
    }
    forall y | y in guarded
      ensures y != p && Above(g, p, y)
    {
      AboveTransitive(g, p, id, y);
      if Above(g, id, p) {
        var k: nat :| Up(g, p, k) == id;
        UpAdd(g, id, 1, k);
        assert OnCycle(g, id);
      }
    }
  }

  lemma OneMore(rows: map<Id, Projected>, out: seq<Id>, id: Id)
    requires ParentsFirst(rows, out) && ParentStands(rows, id, out)
    ensures ParentsFirst(rows, out + [id])
  {
    var more := out + [id];
    forall i | 0 <= i < |more|
      ensures ParentStands(rows, more[i], more[..i])
    {
      assert i < |out| ==> more[..i] == out[..i] && more[i] == out[i];
      assert more[..|out|] == out;
    }
  }

  method Visit(rows: map<Id, Projected>, id: Id, guarded: set<Id>, out0: seq<Id>) returns (out: seq<Id>)
    requires id in rows && guarded <= rows.Keys
    requires NoRepeats(out0) && forall x :: x in out0 ==> x in rows
    ensures NoRepeats(out) && forall x :: x in out ==> x in rows
    ensures forall x :: x in out0 ==> x in out
    ensures id !in guarded ==> id in out
    ensures Acyclic(RowParents(rows)) && CameFrom(RowParents(rows), guarded, id) && ParentsFirst(rows, out0) ==>
      ParentsFirst(rows, out)
    decreases |rows.Keys - guarded|
  {
    hide Acyclic, ParentsFirst, CameFrom;
    out := out0;
    if id in out || id in guarded {
      return;
    }
    var parentId := rows[id].parentId;
    if parentId.Some? && parentId.value in rows {
      assert id in rows.Keys - guarded;
      StrictSubsetSize(rows.Keys - (guarded + {id}), rows.Keys - guarded);
      if Acyclic(RowParents(rows)) && CameFrom(RowParents(rows), guarded, id) {
        ParentIsNotGuarded(RowParents(rows), guarded, id);
        NotGuarded(RowParents(rows), guarded + {id}, parentId.value);
      }
      out := Visit(rows, parentId.value, guarded + {id}, out);
    }
    if id !in out {
      if ParentsFirst(rows, out) && ParentStands(rows, id, out) {
        OneMore(rows, out, id);
      }
      out := out + [id];
    }
  }

  lemma NotGuarded(g: map<Id, Id>, guarded: set<Id>, id: Id)
    requires CameFrom(g, guarded, id)
    ensures id !in guarded
  {
  }

  /** Every row exactly once; parents first whenever the parents form no circle. */
  method TopologicalOrder(rows: map<Id, Projected>, order: seq<Id>) returns (out: seq<Id>)
    requires forall id :: id in order <==> id in rows
    ensures NoRepeats(out) && forall id :: id in out <==> id in rows
    ensures Acyclic(RowParents(rows)) ==> ParentsFirst(rows, out)
  {
    out := [];
    for n := 0 to |order|
      invariant NoRepeats(out) && forall x :: x in out ==> x in rows
      invariant forall i :: 0 <= i < n ==> order[i] in out
      invariant Acyclic(RowParents(rows)) ==> ParentsFirst(rows, out)
    {
      assert order[n] in rows;
      out := Visit(rows, order[n], {}, out);
    }
    forall id | id in rows
      ensures id in out
    {
      assert id in order;
    }
  }
}
