/**
 Undoing everything shows the original rows again: what was created since is
 tombstoned, and tombstones that no original item hangs under do not show.
 */
module HistoryRows {
  import opened Collections
  import opened TreeTheory
  import opened Siblings
  import opened EffectiveTree
  import opened OutlineModel
  import opened OutlineIndex
  import opened OutlineMoves
  import H = History
  import PreOrder
  import V = VisibleRows

  /** `b` holds the placements of `a`; beyond them only tombstones, under which nothing of `a` hangs. */
  ghost predicate WithDeadNewcomers(a: Raw, b: Raw, root: Id) {
    && root in a && a.Keys <= b.Keys
    && (forall id :: id in a ==> b[id] == a[id])
    && (forall id :: id in b && id !in a ==> b[id].isDeleted)
    && forall id :: id in a && id != root && a[id].parentId in b ==> a[id].parentId in a
  }

  lemma AttachedSame(a: Raw, b: Raw, root: Id)
    requires WithDeadNewcomers(a, b, root)
    ensures forall id :: id in Attached(a, root) ==> id in Attached(b, root) && Attached(b, root)[id] == Attached(a, root)[id]
  {
  }

  lemma {:induction false} SameWalkInside(g: map<Id, Id>, h: map<Id, Id>, root: Id, id: Id, k: nat)
    requires ClosedUnder(g, root) && root !in h && forall x :: x in g ==> x in h && h[x] == g[x]
    requires id in g || id == root
    ensures Up(h, id, k) == Up(g, id, k) && (Up(g, id, k) in g || Up(g, id, k) == root)
  {
    if k > 0 {
      SameWalkInside(g, h, root, id, k - 1);
    }
  }

  lemma SameMin(g: map<Id, Id>, h: map<Id, Id>, root: Id, id: Id)
    requires ClosedUnder(g, root) && root !in h && forall x :: x in g ==> x in h && h[x] == g[x]
    requires id in g
    ensures CycleMin(g, id) <==> CycleMin(h, id)
  {
    forall k: nat
      ensures Up(h, id, k) == Up(g, id, k)
    {
      SameWalkInside(g, h, root, id, k);
    }
    if k: nat :| k > 0 && Up(g, id, k) == id {
      assert Up(h, id, k) == id;
    }
    if k: nat :| k > 0 && Up(h, id, k) == id {
      assert Up(g, id, k) == id;
    }
  }

  lemma EdgesSame(a: Raw, b: Raw, root: Id)
    requires WithDeadNewcomers(a, b, root)
    ensures forall id :: id in Edges(a, root) ==> id in Edges(b, root) && Edges(b, root)[id] == Edges(a, root)[id]
    ensures forall id :: id in a ==> (id in Recovered(a, root) <==> id in Recovered(b, root))
  {
    AttachedSame(a, b, root);
    AttachedIsClosed(a, root);
    var g, h := Attached(a, root), Attached(b, root);
    forall id | id in a && id != root
      ensures CycleMin(g, id) <==> CycleMin(h, id)
    {
      SameMin(g, h, root, id);
    }
  }

  lemma HiddenSame(a: Raw, b: Raw, root: Id, id: Id)
    requires WithDeadNewcomers(a, b, root) && id in a && id != root
    ensures id in Deleted(a, root) <==> id in Deleted(b, root)
  {
    var g, h := Edges(a, root), Edges(b, root);
    EdgesSame(a, b, root);
    EffectiveTreeIsRooted(a, root);
    EffectiveTreeIsRooted(b, root);
    forall x
      ensures Above(g, x, id) <==> Above(h, x, id)
      ensures Above(g, x, id) ==> x in a
    {
      AncestorsSame(g, h, root, x, id);
    }
    assert forall x :: x in a ==> (x in Tombstones(a, root) <==> x in Tombstones(b, root));
  }

  lemma AncestorsSame(g: map<Id, Id>, h: map<Id, Id>, root: Id, x: Id, id: Id)
    requires ClosedUnder(g, root) && root !in h && forall y :: y in g ==> y in h && h[y] == g[y]
    requires id in g
    ensures Above(g, x, id) <==> Above(h, x, id)
    ensures Above(g, x, id) ==> x in g || x == root
  {
    forall k: nat
      ensures Up(h, id, k) == Up(g, id, k) && (Up(g, id, k) in g || Up(g, id, k) == root)
    {
      SameWalkInside(g, h, root, id, k);
    }
    if k: nat :| Up(g, id, k) == x {
      assert Up(h, id, k) == x;
    }
    if k: nat :| Up(h, id, k) == x {
      assert Up(g, id, k) == x;
    }
  }

  lemma NewcomersAreHidden(a: Raw, b: Raw, root: Id, id: Id)
    requires WithDeadNewcomers(a, b, root) && id in b && id !in a
    ensures id in Deleted(b, root)
  {
    assert id in Tombstones(b, root);
    assert Up(Edges(b, root), id, 0) == id;
    assert Above(Edges(b, root), id, id);
  }

  /** The restored document may only have grown by tombstones nothing original refers to. */
  ghost predicate Regained(doc: Items, origin: Items, root: Id) {
    && H.Restores(doc, origin) && root in origin
    && forall id :: id in origin && id != root && origin[id].parentId in doc ==> origin[id].parentId in origin
  }

  lemma RegainedRaw(doc: Items, origin: Items, root: Id)
    requires Regained(doc, origin, root)
    ensures WithDeadNewcomers(RawOf(origin), RawOf(doc), root)
  {
    forall id | id in origin
      ensures id in doc && RawOf(doc)[id] == RawOf(origin)[id]
    {
      assert H.SameFields(doc[id], origin[id]);
    }
  }

  lemma LiveSame(doc: Items, origin: Items, root: Id, id: Id)
    requires Regained(doc, origin, root)
    ensures Live(doc, root, id) <==> Live(origin, root, id)
    ensures Live(origin, root, id) ==>
      doc[id].rank == origin[id].rank && EdgesOf(doc, root)[id] == EdgesOf(origin, root)[id]
  {
    RegainedRaw(doc, origin, root);
    var a, b := RawOf(origin), RawOf(doc);
    if id in origin && id != root {
      HiddenSame(a, b, root, id);
      EdgesSame(a, b, root);
      EffectiveTreeIsRooted(a, root);
      assert H.SameFields(doc[id], origin[id]);
    } else if id in doc && id != root {
      NewcomersAreHidden(a, b, root, id);
    }
  }

  lemma ChildrenSame(doc: Items, origin: Items, root: Id, p: Id)
    requires Regained(doc, origin, root)
    ensures Children(doc, root, p) == Children(origin, root, p)
  {
    hide Live, EdgesOf, Regained;
    forall e
      ensures e in Kids(doc, root, p) <==> e in Kids(origin, root, p)
    {
      KidsMembers(doc, root, p, e);
      KidsMembers(origin, root, p, e);
      LiveSame(doc, origin, root, e.id);
    }
    SetEquality(Kids(doc, root, p), Kids(origin, root, p));
  }

  lemma {:induction false} SameRowsAt(s: PreOrder.Shape, t: PreOrder.Shape, collapsed: set<Id>, x: Id, depth: nat)
    requires PreOrder.WellShaped(s) && PreOrder.WellShaped(t)
    requires forall p :: PreOrder.KidsOf(s, p) == PreOrder.KidsOf(t, p)
    ensures PreOrder.RowsAt(s, collapsed, x, depth) == PreOrder.RowsAt(t, collapsed, x, depth)
    decreases PreOrder.Room(s, x), |PreOrder.KidsOf(s, x)| + 1
  {
    hide PreOrder.WellShaped, PreOrder.KidsOf, PreOrder.Room;
    if x !in collapsed {
      SameRowsFrom(s, t, collapsed, x, 0, depth + 1);
    }
  }

  lemma {:induction false} SameRowsFrom(s: PreOrder.Shape, t: PreOrder.Shape, collapsed: set<Id>, p: Id, i: nat, depth: nat)
    requires PreOrder.WellShaped(s) && PreOrder.WellShaped(t)
    requires forall q :: PreOrder.KidsOf(s, q) == PreOrder.KidsOf(t, q)
    requires i <= |PreOrder.KidsOf(s, p)|
    ensures PreOrder.RowsFrom(s, collapsed, p, i, depth) == PreOrder.RowsFrom(t, collapsed, p, i, depth)
    decreases PreOrder.Room(s, p), |PreOrder.KidsOf(s, p)| - i
  {
    hide PreOrder.WellShaped, PreOrder.KidsOf, PreOrder.Room;
    if i < |PreOrder.KidsOf(s, p)| {
      PreOrder.KidHasLessRoom(s, p, i);
      SameRowsAt(s, t, collapsed, PreOrder.KidsOf(s, p)[i], depth);
      SameRowsFrom(s, t, collapsed, p, i + 1, depth);
    }
  }

  /** Such a document shows the rows of the original one. */
  lemma RegainedRows(doc: Items, origin: Items, root: Id, top: Id, collapsed: set<Id>)
    requires Regained(doc, origin, root)
    ensures V.RowsOf(doc, root, top, collapsed) == V.RowsOf(origin, root, top, collapsed)
  {
    hide Regained, PreOrder.WellShaped, PreOrder.RowsFrom, PreOrder.KidsOf, EdgesOf;
    var s, t := V.ShapeOf(doc, root), V.ShapeOf(origin, root);
    V.ShapeIsWell(doc, root);
    V.ShapeIsWell(origin, root);
    forall p
      ensures PreOrder.KidsOf(s, p) == PreOrder.KidsOf(t, p)
    {
      V.KidsAreChildren(doc, root, p);
      V.KidsAreChildren(origin, root, p);
      ChildrenSame(doc, origin, root, p);
    }
    SameRowsFrom(s, t, collapsed, top, 0, 0);
    var rows := PreOrder.RowsBelow(t, collapsed, top);
    forall n | 0 <= n < |rows|
      ensures rows[n].id in Recovered(RawOf(doc), root) <==> rows[n].id in Recovered(RawOf(origin), root)
    {
      PreOrder.RowIsExposed(t, collapsed, top, n);
      V.ExposedIsVisible(origin, root, top, collapsed, rows[n].id, rows[n].depth);
      RecoveredSame(doc, origin, root, rows[n].id);
    }
  }

  lemma RecoveredSame(doc: Items, origin: Items, root: Id, id: Id)
    requires Regained(doc, origin, root) && Live(origin, root, id)
    ensures id in Recovered(RawOf(doc), root) <==> id in Recovered(RawOf(origin), root)
  {
    RegainedRaw(doc, origin, root);
    EdgesSame(RawOf(origin), RawOf(doc), root);
  }

  /** After any local session, undoing every action shows the rows the session began with. */
  lemma UndoAllShowsTheSame(root: Id, origin: Items, states: seq<H.Session>, i: nat, top: Id, collapsed: set<Id>)
    requires H.LocalRun(root, origin, states) && i < |states|
    requires forall id :: id in origin && id != root && origin[id].parentId in states[i].doc ==>
      origin[id].parentId in origin
    ensures V.RowsOf(H.Undos(states[i], root, |states[i].undo|).doc, root, top, collapsed)
         == V.RowsOf(origin, root, top, collapsed)
  {
    H.UndoAllRestores(root, origin, states, i);
    UndosKeepKeys(states[i], root, |states[i].undo|);
    RegainedRows(H.Undos(states[i], root, |states[i].undo|).doc, origin, root, top, collapsed);
  }

  lemma {:induction false} UndosKeepKeys(w: H.Session, root: Id, k: nat)
    ensures H.Undos(w, root, k).doc.Keys == w.doc.Keys
  {
    if k > 0 {
      UndosKeepKeys(w, root, k - 1);
    }
  }
}
