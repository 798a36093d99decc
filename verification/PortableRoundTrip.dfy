/**
 Exported and imported again, a document shows the same outline under new ids.
 */
module PortableRoundTrip {
  import opened Collections
  import opened TreeTheory
  import opened Siblings
  import opened EffectiveTree
  import opened OutlineModel
  import opened OutlineIndex
  import opened Portable
  import opened PortableImport
  import PreOrder
  import V = VisibleRows

  /** What is asked of a document: its root is there, and the sentinel is nobody's id. */
  ghost predicate WellRooted(items: Items, root: Id) {
    root in items && root != ROOT_PARENT_SENTINEL && ROOT_PARENT_SENTINEL !in items
  }

  /** `h` is `g` under new names. */
  ghost predicate Renamed(g: map<Id, Id>, h: map<Id, Id>, ids: map<Id, Id>, root: Id) {
    && root in ids && root !in g && ids.Keys == g.Keys + {root}
    && (forall a, b :: a in ids && b in ids && a != b ==> ids[a] != ids[b])
    && (forall x :: x in g ==> g[x] in ids && ids[x] in h && h[ids[x]] == ids[g[x]])
    && forall y :: y in h ==> exists x :: x in g && ids[x] == y
  }

  lemma RootEndsRenamed(g: map<Id, Id>, h: map<Id, Id>, ids: map<Id, Id>, root: Id)
    requires Renamed(g, h, ids, root)
    ensures ids[root] !in h
  {
    forall x | x in g
      ensures ids[x] != ids[root]
    {
    }
  }

  lemma {:induction false} RenamedWalk(g: map<Id, Id>, h: map<Id, Id>, ids: map<Id, Id>, root: Id, id: Id, k: nat)
    requires Renamed(g, h, ids, root) && id in ids
    ensures Up(g, id, k) in ids && Up(h, ids[id], k) == ids[Up(g, id, k)]
  {
    if k > 0 {
      RenamedWalk(g, h, ids, root, id, k - 1);
      var x := Up(g, id, k - 1);
      RootEndsRenamed(g, h, ids, root);
      assert x in g || x == root;
    }
  }

  lemma RenamedForest(g: map<Id, Id>, h: map<Id, Id>, ids: map<Id, Id>, root: Id)
    requires Renamed(g, h, ids, root) && Forest(g)
    ensures Forest(h)
  {
    RootEndsRenamed(g, h, ids, root);
    forall y | y in h
      ensures Grounded(h, y)
    {
      var x :| x in g && ids[x] == y;
      var k: nat :| Up(g, x, k) !in g;
      RenamedWalk(g, h, ids, root, x, k);
      assert Up(h, y, k) !in h;
    }
  }

  lemma RenamedAbove(g: map<Id, Id>, h: map<Id, Id>, ids: map<Id, Id>, root: Id, a: Id, id: Id)
    requires Renamed(g, h, ids, root) && a in ids && id in ids
    ensures Above(h, ids[a], ids[id]) <==> Above(g, a, id)
  {
    forall k: nat
      ensures Up(h, ids[id], k) == ids[a] <==> Up(g, id, k) == a
    {
      RenamedWalk(g, h, ids, root, id, k);
    }
  }

  /** The effective parents of what is exported. */
  ghost function KeptEdges(items: Items, root: Id, trash: bool): map<Id, Id> {
    RawEdges(RawOfOutline(Exported(items, root, trash)), root)
  }

  lemma KeptEdge(items: Items, root: Id, trash: bool, x: Id)
    requires WellRooted(items, root) && x in KeptEdges(items, root, trash)
    ensures x in Exported(items, root, trash) && x != root
    ensures KeptEdges(items, root, trash)[x] in Exported(items, root, trash)
    ensures Exported(items, root, trash)[x].parentId == Some(KeptEdges(items, root, trash)[x])
  {
    ExportedEdges(items, root, trash);
    KeptIsClosed(items, root, trash, x);
    RootIsKept(items, root, trash);
  }

  lemma KeptEdgeKeys(items: Items, root: Id, trash: bool)
    requires WellRooted(items, root)
    ensures root in Exported(items, root, trash) && root !in KeptEdges(items, root, trash)
    ensures KeptEdges(items, root, trash).Keys + {root} == Exported(items, root, trash).Keys
  {
    RootIsKept(items, root, trash);
  }

  /** The new document's placements are the exported ones under the new names. */
  lemma BuiltIsRenamed(items: Items, root: Id, trash: bool, ids: map<Id, Id>, doc: Items)
    requires WellRooted(items, root)
    requires Renames(ids, Exported(items, root, trash)) && Built(Exported(items, root, trash), ids, doc)
    ensures root in ids
    ensures Renamed(KeptEdges(items, root, trash), RawEdges(RawOf(doc), ids[root]), ids, root)
  {
    hide Exported, KeptEdges, Built;
    var outline := Exported(items, root, trash);
    var g := KeptEdges(items, root, trash);
    KeptEdgeKeys(items, root, trash);
    var h := RawEdges(RawOf(doc), ids[root]);
    forall x | x in g
      ensures g[x] in ids && ids[x] in h && h[ids[x]] == ids[g[x]]
    {
      KeptEdge(items, root, trash, x);
      WrittenItem(outline, ids, doc, x);
    }
    forall y | y in h
      ensures exists x :: x in g && ids[x] == y
    {
      var x := WrittenFrom(outline, ids, doc, y);
    }
  }

  lemma WrittenItem(outline: Outline, ids: map<Id, Id>, doc: Items, id: Id)
    requires Renames(ids, outline) && Built(outline, ids, doc) && id in outline
    ensures ids[id] in doc
    ensures doc[ids[id]] == NewItem(ids, outline[id], doc[ids[id]].rank)
  {
  }

  lemma WrittenFrom(outline: Outline, ids: map<Id, Id>, doc: Items, y: Id) returns (x: Id)
    requires Built(outline, ids, doc) && y in doc
    ensures x in outline && x in ids && ids[x] == y
  {
    var ranks :| RanksFollow(outline, ranks) && Writes(outline, ids, ranks, outline.Keys, doc);
    x :| x in outline && x in outline.Keys && ids[x] == y;
  }

  /** The import has no faults, and its tree is the exported one under the new names. */
  lemma BuiltIsClean(items: Items, root: Id, trash: bool, ids: map<Id, Id>, doc: Items)
    requires WellRooted(items, root)
    requires Renames(ids, Exported(items, root, trash)) && Built(Exported(items, root, trash), ids, doc)
    ensures root in ids && Clean(doc, ids[root])
    ensures EdgesOf(doc, ids[root]) == RawEdges(RawOf(doc), ids[root])
    ensures Renamed(KeptEdges(items, root, trash), EdgesOf(doc, ids[root]), ids, root)
  {
    hide Exported, Built, EdgesOf, Clean;
    BuiltIsRenamed(items, root, trash, ids, doc);
    KeptIsForest(items, root, trash);
    RenamedForest(KeptEdges(items, root, trash), RawEdges(RawOf(doc), ids[root]), ids, root);
    BuiltIsPlaceable(items, root, trash, ids, doc);
    TreeMeansClean(doc, ids[root]);
  }

  lemma KeptIsForest(items: Items, root: Id, trash: bool)
    requires WellRooted(items, root)
    ensures Forest(KeptEdges(items, root, trash))
  {
    ExportedEdges(items, root, trash);
    EffectiveTreeIsRooted(RawOf(items), root);
    PartIsForest(KeptEdges(items, root, trash), EdgesOf(items, root));
  }

  lemma BuiltIsPlaceable(items: Items, root: Id, trash: bool, ids: map<Id, Id>, doc: Items)
    requires WellRooted(items, root) && root in ids
    requires Renames(ids, Exported(items, root, trash)) && Built(Exported(items, root, trash), ids, doc)
    ensures Placeable(doc, ids[root])
  {
    hide Exported, KeptEdges, Built;
    forall y | y in doc && y != ids[root]
      ensures doc[y].parentId in doc && doc[y].parentId != ROOT_PARENT_SENTINEL
    {
      var x := WrittenFrom(Exported(items, root, trash), ids, doc, y);
      KeptEdgeKeys(items, root, trash);
      KeptEdge(items, root, trash, x);
      WrittenItem(Exported(items, root, trash), ids, doc, x);
      WrittenItem(Exported(items, root, trash), ids, doc, KeptEdges(items, root, trash)[x]);
    }
  }

  // What the export says about deletion carries over.

  lemma BuiltTombstones(items: Items, root: Id, trash: bool, ids: map<Id, Id>, doc: Items, id: Id)
    requires WellRooted(items, root) && root in ids && id in ids
    requires Renames(ids, Exported(items, root, trash)) && Built(Exported(items, root, trash), ids, doc)
    ensures ids[id] in Tombstones(RawOf(doc), ids[root])
       <==> trash && id in Tombstones(RawOf(items), root)
  {
    hide Built, Exported;
    WrittenItem(Exported(items, root, trash), ids, doc, id);
    ExportedMark(items, root, trash, id);
    assert id != root ==> ids[id] != ids[root];
  }

  lemma ExportedMark(items: Items, root: Id, trash: bool, id: Id)
    requires id in Exported(items, root, trash)
    ensures id in items
    ensures var item := Exported(items, root, trash)[id];
      && (item.parentId.Some? <==> id != root)
      && (item.deleted == Some(true) <==> trash && items[id].isDeleted)
  {
  }

  /** With the trash every item keeps its deleted flag; without it nothing is deleted. */
  lemma DeletedCarriesOver(items: Items, root: Id, trash: bool, ids: map<Id, Id>, doc: Items, id: Id)
    requires WellRooted(items, root) && id in Kept(items, root, trash)
    requires Renames(ids, Exported(items, root, trash)) && Built(Exported(items, root, trash), ids, doc)
    ensures root in ids && ids[id] in doc
    ensures Live(doc, ids[root], ids[id]) <==> Live(items, root, id)
  {
    hide Exported, Built, EdgesOf, Clean, Renames;
    BuiltIsClean(items, root, trash, ids, doc);
    KeptIsRenamed(items, root, trash, ids);
    WrittenItem(Exported(items, root, trash), ids, doc, id);
    LiveMeansNotHidden(doc, ids[root], ids[id]);
    LiveMeansNotHidden(items, root, id);
    if id != root {
      HiddenCarriesOver(items, root, trash, ids, doc, id);
    }
  }

  lemma KeptIsRenamed(items: Items, root: Id, trash: bool, ids: map<Id, Id>)
    requires Renames(ids, Exported(items, root, trash))
    ensures ids.Keys == Kept(items, root, trash)
    ensures forall a, b :: a in ids && b in ids && a != b ==> ids[a] != ids[b]
    ensures forall id :: id in ids ==> id in items
  {
  }

  lemma HiddenCarriesOver(items: Items, root: Id, trash: bool, ids: map<Id, Id>, doc: Items, id: Id)
    requires WellRooted(items, root) && id in Kept(items, root, trash) && id != root && root in ids
    requires Renames(ids, Exported(items, root, trash)) && Built(Exported(items, root, trash), ids, doc)
    requires ids.Keys == Kept(items, root, trash)
    requires Renamed(KeptEdges(items, root, trash), EdgesOf(doc, ids[root]), ids, root)
    ensures Hidden(EdgesOf(doc, ids[root]), Tombstones(RawOf(doc), ids[root]), ids[id])
       <==> Hidden(EdgesOf(items, root), Tombstones(RawOf(items), root), id)
  {
    hide Exported, Built, EdgesOf, Renames, KeptEdges;
    var g, h := KeptEdges(items, root, trash), EdgesOf(doc, ids[root]);
    var was, now := Tombstones(RawOf(items), root), Tombstones(RawOf(doc), ids[root]);
    if trash {
      TrashKeepsAll(items, root);
      if Hidden(h, now, ids[id]) {
        var b :| b in now && Above(h, b, ids[id]);
        var a := WrittenFrom(Exported(items, root, trash), ids, doc, b);
        BuiltTombstones(items, root, trash, ids, doc, a);
        RenamedAbove(g, h, ids, root, a, id);
      }
      if Hidden(g, was, id) {
        var a :| a in was && Above(g, a, id);
        BuiltTombstones(items, root, trash, ids, doc, a);
        RenamedAbove(g, h, ids, root, a, id);
        assert ids[a] in now && Above(h, ids[a], ids[id]);
      }
    } else {
      KeptIsNotHidden(items, root, id);
      if Hidden(h, now, ids[id]) {
        var b :| b in now && Above(h, b, ids[id]);
        var a := WrittenFrom(Exported(items, root, trash), ids, doc, b);
        BuiltTombstones(items, root, trash, ids, doc, a);
        assert false;
      }
    }
  }

  lemma TrashKeepsAll(items: Items, root: Id)
    requires WellRooted(items, root)
    ensures Kept(items, root, true) == items.Keys
    ensures KeptEdges(items, root, true) == EdgesOf(items, root)
    ensures Tombstones(RawOf(items), root) <= items.Keys
  {
    ExportedEdges(items, root, true);
    EffectiveTreeIsRooted(RawOf(items), root);
    MapEquality(KeptEdges(items, root, true), EdgesOf(items, root));
  }

  lemma KeptIsNotHidden(items: Items, root: Id, id: Id)
    requires id in Kept(items, root, false) && id != root
    ensures !Hidden(EdgesOf(items, root), Tombstones(RawOf(items), root), id)
  {
  }

  // Sibling order carries over.

  function NewSibling(ids: map<Id, Id>, doc: Items, e: Sibling): Sibling
    requires e.id in ids && ids[e.id] in doc
  {
    Sibling(ids[e.id], doc[ids[e.id]].rank)
  }

  ghost predicate AllWritten(ids: map<Id, Id>, doc: Items, s: seq<Sibling>) {
    forall i :: 0 <= i < |s| ==> s[i].id in ids && ids[s[i].id] in doc
  }

  ghost function NewSiblings(ids: map<Id, Id>, doc: Items, s: seq<Sibling>): (r: seq<Sibling>)
    requires AllWritten(ids, doc, s)
    ensures |r| == |s| && forall i :: 0 <= i < |s| ==> r[i] == NewSibling(ids, doc, s[i])
  {
    seq(|s|, i requires 0 <= i < |s| => NewSibling(ids, doc, s[i]))
  }

  lemma RanksCarryOver(outline: Outline, ids: map<Id, Id>, doc: Items, a: Id, b: Id)
    requires Renames(ids, outline) && Built(outline, ids, doc) && a in outline && b in outline
    requires ListedBefore(outline[a], outline[b])
    ensures ids[a] in doc && ids[b] in doc && doc[ids[a]].rank < doc[ids[b]].rank
  {
    var ranks :| RanksFollow(outline, ranks) && Writes(outline, ids, ranks, outline.Keys, doc);
  }

  lemma ChildIsKept(items: Items, root: Id, trash: bool, p: Id, e: Sibling)
    requires e in Children(items, root, p)
    ensures e.id in Kept(items, root, trash) && e.id != root && IsKid(items, root, p, e)
    ensures var item := Exported(items, root, trash)[e.id];
      item.parentId == Some(p) && SiblingOf(item) == e
  {
    assert e in Members(Children(items, root, p));
    KidsMembers(items, root, p, e);
  }

  lemma ChildrenSortedAfter(items: Items, root: Id, trash: bool, ids: map<Id, Id>, doc: Items, p: Id)
    requires Renames(ids, Exported(items, root, trash)) && Built(Exported(items, root, trash), ids, doc)
    ensures AllWritten(ids, doc, Children(items, root, p))
    ensures Sorted(NewSiblings(ids, doc, Children(items, root, p)))
  {
    hide Exported, Built, Kids;
    var s := Children(items, root, p);
    var outline := Exported(items, root, trash);
    forall i | 0 <= i < |s|
      ensures s[i].id in ids && ids[s[i].id] in doc
    {
      ChildIsKept(items, root, trash, p, s[i]);
      WrittenItem(outline, ids, doc, s[i].id);
    }
    var r := NewSiblings(ids, doc, s);
    forall i, j | 0 <= i < j < |r|
      ensures Before(r[i], r[j])
    {
      ChildIsKept(items, root, trash, p, s[i]);
      ChildIsKept(items, root, trash, p, s[j]);
      assert Before(s[i], s[j]);
      RanksCarryOver(outline, ids, doc, s[i].id, s[j].id);
    }
  }

  lemma ChildBecomesKid(items: Items, root: Id, trash: bool, ids: map<Id, Id>, doc: Items, p: Id, e: Sibling)
    requires WellRooted(items, root) && p in Kept(items, root, trash) && p in ids && root in ids
    requires Renames(ids, Exported(items, root, trash)) && Built(Exported(items, root, trash), ids, doc)
    requires e in Children(items, root, p) && e.id in ids && ids[e.id] in doc
    ensures IsKid(doc, ids[root], ids[p], NewSibling(ids, doc, e))
  {
    hide Exported, Built, EdgesOf, Live, Kids, Renames, Children;
    ChildIsKept(items, root, trash, p, e);
    DeletedCarriesOver(items, root, trash, ids, doc, e.id);
    EdgeCarriesOver(items, root, trash, ids, doc, e.id);
  }

  /** The new document's children of a renamed item are the renamed children. */
  lemma KidsCarryOver(items: Items, root: Id, trash: bool, ids: map<Id, Id>, doc: Items, p: Id, e: Sibling)
    requires WellRooted(items, root) && p in Kept(items, root, trash) && p in ids && root in ids
    requires Renames(ids, Exported(items, root, trash)) && Built(Exported(items, root, trash), ids, doc)
    requires AllWritten(ids, doc, Children(items, root, p))
    ensures e in Kids(doc, ids[root], ids[p]) <==> e in NewSiblings(ids, doc, Children(items, root, p))
  {
    hide Exported, Built, EdgesOf, Live, Kids, Renames, Children, IsKid, Kept;
    var s := Children(items, root, p);
    var r := NewSiblings(ids, doc, s);
    KidsMembers(doc, ids[root], ids[p], e);
    if e in r {
      var i :| 0 <= i < |r| && r[i] == e;
      ChildBecomesKid(items, root, trash, ids, doc, p, s[i]);
    }
    if IsKid(doc, ids[root], ids[p], e) {
      var x := KidComesFrom(items, root, trash, ids, doc, p, e);
      var i :| 0 <= i < |s| && s[i].id == x;
      assert r[i] == e;
    }
  }

  lemma EdgeCarriesOver(items: Items, root: Id, trash: bool, ids: map<Id, Id>, doc: Items, x: Id)
    requires WellRooted(items, root) && x in Kept(items, root, trash) && x != root
    requires Renames(ids, Exported(items, root, trash)) && Built(Exported(items, root, trash), ids, doc)
    ensures root in ids && x in EdgesOf(items, root) && EdgesOf(items, root)[x] in ids && x in ids
    ensures ids[x] in EdgesOf(doc, ids[root])
    ensures EdgesOf(doc, ids[root])[ids[x]] == ids[EdgesOf(items, root)[x]]
  {
    BuiltIsClean(items, root, trash, ids, doc);
    ExportedEdges(items, root, trash);
    hide EdgesOf, Built;
    assert x in KeptEdges(items, root, trash);
  }

  lemma KidComesFrom(items: Items, root: Id, trash: bool, ids: map<Id, Id>, doc: Items, p: Id, e: Sibling) returns (x: Id)
    requires WellRooted(items, root) && p in Kept(items, root, trash) && root in ids
    requires Renames(ids, Exported(items, root, trash)) && Built(Exported(items, root, trash), ids, doc)
    requires IsKid(doc, ids[root], ids[p], e)
    ensures x in ids && ids[x] == e.id && ids[x] in doc && e == Sibling(e.id, doc[ids[x]].rank)
    ensures exists i :: 0 <= i < |Children(items, root, p)| && Children(items, root, p)[i].id == x
  {
    assert e.id in doc && e.id != ids[root];
    hide Exported, Built, EdgesOf, Live, Kids, Renames;
    KeptIsRenamed(items, root, trash, ids);
    x := WrittenFrom(Exported(items, root, trash), ids, doc, e.id);
    DeletedCarriesOver(items, root, trash, ids, doc, x);
    EdgeCarriesOver(items, root, trash, ids, doc, x);
    assert EdgesOf(items, root)[x] == p;
    KidsMembers(items, root, p, Sibling(x, items[x].rank));
    assert Sibling(x, items[x].rank) in Members(Children(items, root, p));
  }

  /** Renaming a list of ids. */
  function RenameAll(ids: map<Id, Id>, s: seq<Id>): seq<Id>
    requires forall x :: x in s ==> x in ids
  {
    seq(|s|, i requires 0 <= i < |s| => ids[s[i]])
  }

  /** Exported and imported again, every item has the same live children in the same order. */
  lemma ChildrenCarryOver(items: Items, root: Id, trash: bool, ids: map<Id, Id>, doc: Items, p: Id)
    requires WellRooted(items, root) && p in Kept(items, root, trash)
    requires Renames(ids, Exported(items, root, trash)) && Built(Exported(items, root, trash), ids, doc)
    ensures root in ids && p in ids && forall x :: x in ChildIds(items, root, p) ==> x in ids
    ensures ChildIds(doc, ids[root], ids[p]) == RenameAll(ids, ChildIds(items, root, p))
  {
    hide Exported, Built, EdgesOf, Live, Kids, Renames, Children, Kept;
    KeptIsRenamed(items, root, trash, ids);
    RootIsKept(items, root, trash);
    ChildrenSortedAfter(items, root, trash, ids, doc, p);
    var s := Children(items, root, p);
    var r := NewSiblings(ids, doc, s);
    ChildrenRenamed(items, root, trash, ids, doc, p);
    assert Ids(r) == RenameAll(ids, ChildIds(items, root, p));
  }

  lemma ChildrenRenamed(items: Items, root: Id, trash: bool, ids: map<Id, Id>, doc: Items, p: Id)
    requires WellRooted(items, root) && p in Kept(items, root, trash) && p in ids && root in ids
    requires Renames(ids, Exported(items, root, trash)) && Built(Exported(items, root, trash), ids, doc)
    requires AllWritten(ids, doc, Children(items, root, p)) && Sorted(NewSiblings(ids, doc, Children(items, root, p)))
    ensures Children(doc, ids[root], ids[p]) == NewSiblings(ids, doc, Children(items, root, p))
  {
    hide Exported, Built, EdgesOf, Live, Kids, Renames, Kept;
    var r := NewSiblings(ids, doc, Children(items, root, p));
    forall e
      ensures e in Kids(doc, ids[root], ids[p]) <==> e in Members(r)
    {
      KidsCarryOver(items, root, trash, ids, doc, p, e);
    }
    SetEquality(Kids(doc, ids[root], ids[p]), Members(r));
    InOrderOf(r);
  }

  /** Texts and completion carry over, and with the trash the deleted flags too. */
  lemma FieldsCarryOver(items: Items, root: Id, trash: bool, ids: map<Id, Id>, doc: Items, id: Id)
    requires WellRooted(items, root) && id in Kept(items, root, trash)
    requires Renames(ids, Exported(items, root, trash)) && Built(Exported(items, root, trash), ids, doc)
    ensures id in ids && ids[id] in doc && id in items
    ensures doc[ids[id]].content == items[id].content && doc[ids[id]].isCompleted == items[id].isCompleted
    ensures id != root ==> doc[ids[id]].isDeleted == (trash && items[id].isDeleted)
  {
    WrittenItem(Exported(items, root, trash), ids, doc, id);
  }

  // ---------- the rows on screen ----------

  function RenameRows(ids: map<Id, Id>, rows: seq<PreOrder.Row>): (r: seq<PreOrder.Row>)
    requires forall i :: 0 <= i < |rows| ==> rows[i].id in ids
    ensures |r| == |rows|
  {
    seq(|rows|, i requires 0 <= i < |rows| => PreOrder.Row(ids[rows[i].id], rows[i].depth))
  }

  /** Every children list of `t` is the renamed list of `s`. */
  ghost predicate KidsRenamed(s: PreOrder.Shape, t: PreOrder.Shape, ids: map<Id, Id>) {
    && (forall p, i :: 0 <= i < |PreOrder.KidsOf(s, p)| ==> PreOrder.KidsOf(s, p)[i] in ids)
    && forall p :: p in ids ==> ListRenamed(ids, PreOrder.KidsOf(s, p), PreOrder.KidsOf(t, ids[p]))
  }

  ghost predicate ListRenamed(ids: map<Id, Id>, s: seq<Id>, t: seq<Id>) {
    |t| == |s| && forall i :: 0 <= i < |s| ==> s[i] in ids && t[i] == ids[s[i]]
  }

  lemma KidRenamed(s: PreOrder.Shape, t: PreOrder.Shape, ids: map<Id, Id>, p: Id, i: nat)
    requires KidsRenamed(s, t, ids) && p in ids && i <= |PreOrder.KidsOf(s, p)|
    ensures |PreOrder.KidsOf(t, ids[p])| == |PreOrder.KidsOf(s, p)|
    ensures i < |PreOrder.KidsOf(s, p)| ==>
      PreOrder.KidsOf(s, p)[i] in ids && PreOrder.KidsOf(t, ids[p])[i] == ids[PreOrder.KidsOf(s, p)[i]]
  {
    assert ListRenamed(ids, PreOrder.KidsOf(s, p), PreOrder.KidsOf(t, ids[p]));
  }

  lemma {:induction false} RowsAtRenamed(s: PreOrder.Shape, t: PreOrder.Shape, ids: map<Id, Id>,
                                         closed: set<Id>, closedNow: set<Id>, x: Id, depth: nat)
    requires PreOrder.WellShaped(s) && PreOrder.WellShaped(t) && KidsRenamed(s, t, ids) && x in ids
    requires forall a :: a in ids ==> (a in closed <==> ids[a] in closedNow)
    ensures forall i :: 0 <= i < |PreOrder.RowsAt(s, closed, x, depth)| ==> PreOrder.RowsAt(s, closed, x, depth)[i].id in ids
    ensures PreOrder.RowsAt(t, closedNow, ids[x], depth) == RenameRows(ids, PreOrder.RowsAt(s, closed, x, depth))
    decreases PreOrder.Room(s, x), |PreOrder.KidsOf(s, x)| + 1
  {
    hide PreOrder.WellShaped, PreOrder.KidsOf, PreOrder.Room, KidsRenamed;
    KidRenamed(s, t, ids, x, 0);
    if x !in closed {
      RowsFromRenamed(s, t, ids, closed, closedNow, x, 0, depth + 1);
    }
  }

  lemma {:induction false} RowsFromRenamed(s: PreOrder.Shape, t: PreOrder.Shape, ids: map<Id, Id>,
                                           closed: set<Id>, closedNow: set<Id>, p: Id, i: nat, depth: nat)
    requires PreOrder.WellShaped(s) && PreOrder.WellShaped(t) && KidsRenamed(s, t, ids) && p in ids
    requires forall a :: a in ids ==> (a in closed <==> ids[a] in closedNow)
    requires i <= |PreOrder.KidsOf(s, p)| == |PreOrder.KidsOf(t, ids[p])|
    ensures forall k :: 0 <= k < |PreOrder.RowsFrom(s, closed, p, i, depth)| ==>
      PreOrder.RowsFrom(s, closed, p, i, depth)[k].id in ids
    ensures PreOrder.RowsFrom(t, closedNow, ids[p], i, depth) == RenameRows(ids, PreOrder.RowsFrom(s, closed, p, i, depth))
    decreases PreOrder.Room(s, p), |PreOrder.KidsOf(s, p)| - i
  {
    hide PreOrder.WellShaped, PreOrder.KidsOf, PreOrder.Room, KidsRenamed, PreOrder.RowsAt;
    if i < |PreOrder.KidsOf(s, p)| {
      KidRenamed(s, t, ids, p, i);
      PreOrder.KidHasLessRoom(s, p, i);
      RowsAtRenamed(s, t, ids, closed, closedNow, PreOrder.KidsOf(s, p)[i], depth);
      RowsFromRenamed(s, t, ids, closed, closedNow, p, i + 1, depth);
    }
  }

  lemma ShapesRenamed(items: Items, root: Id, trash: bool, ids: map<Id, Id>, doc: Items)
    requires WellRooted(items, root) && root in ids
    requires Renames(ids, Exported(items, root, trash)) && Built(Exported(items, root, trash), ids, doc)
    ensures KidsRenamed(V.ShapeOf(items, root), V.ShapeOf(doc, ids[root]), ids)
  {
    hide Exported, Built, EdgesOf, Live, Kids, Renames, Children, ChildIds, PreOrder.KidsOf, V.ShapeOf;
    KeptIsRenamed(items, root, trash, ids);
    var s, t := V.ShapeOf(items, root), V.ShapeOf(doc, ids[root]);
    forall p, i | 0 <= i < |PreOrder.KidsOf(s, p)|
      ensures PreOrder.KidsOf(s, p)[i] in ids
    {
      V.KidsAreChildren(items, root, p);
      ListedIsKept(items, root, trash, p, i);
    }
    forall p | p in ids
      ensures ListRenamed(ids, PreOrder.KidsOf(s, p), PreOrder.KidsOf(t, ids[p]))
    {
      V.KidsAreChildren(items, root, p);
      V.KidsAreChildren(doc, ids[root], ids[p]);
      ChildrenCarryOver(items, root, trash, ids, doc, p);
    }
  }

  lemma ListedIsKept(items: Items, root: Id, trash: bool, p: Id, i: nat)
    requires i < |ChildIds(items, root, p)|
    ensures ChildIds(items, root, p)[i] in Kept(items, root, trash)
  {
    ChildIsKept(items, root, trash, p, Children(items, root, p)[i]);
  }

  /** The rows below `top` in `doc` are the rows below it in `items` under new names, and none is recovered. */
  ghost predicate SameRows(items: Items, root: Id, ids: map<Id, Id>, doc: Items, top: Id, closed: set<Id>,
                           closedNow: set<Id>)
    requires root in ids && top in ids
  {
    var before, after := V.RowsOf(items, root, top, closed), V.RowsOf(doc, ids[root], ids[top], closedNow);
    && |after| == |before|
    && forall i :: 0 <= i < |before| ==>
         before[i].id in ids && after[i] == V.VisibleRow(ids[before[i].id], before[i].depth, false)
  }

  ghost predicate ClosedAlike(ids: map<Id, Id>, closed: set<Id>, closedNow: set<Id>) {
    forall a :: a in ids ==> (a in closed <==> ids[a] in closedNow)
  }

  /** The rows below any item are the same after the round trip, row by row and depth by depth; nothing is recovered. */
  lemma RowsCarryOver(items: Items, root: Id, trash: bool, ids: map<Id, Id>, doc: Items, top: Id,
                      closed: set<Id>, closedNow: set<Id>)
    requires WellRooted(items, root) && top in Kept(items, root, trash)
    requires Renames(ids, Exported(items, root, trash)) && Built(Exported(items, root, trash), ids, doc)
    requires ClosedAlike(ids, closed, closedNow)
    ensures root in ids && top in ids && SameRows(items, root, ids, doc, top, closed, closedNow)
  {
    hide Exported, Built, EdgesOf, Live, Kids, Renames, Children, ChildIds, PreOrder.KidsOf, V.ShapeOf, KidsRenamed,
      PreOrder.WellShaped, PreOrder.RowsFrom;
    KeptIsRenamed(items, root, trash, ids);
    RootIsKept(items, root, trash);
    ShapesRenamed(items, root, trash, ids, doc);
    V.ShapeIsWell(items, root);
    V.ShapeIsWell(doc, ids[root]);
    KidRenamed(V.ShapeOf(items, root), V.ShapeOf(doc, ids[root]), ids, top, 0);
    RowsFromRenamed(V.ShapeOf(items, root), V.ShapeOf(doc, ids[root]), ids, closed, closedNow, top, 0, 0);
    BuiltIsClean(items, root, trash, ids, doc);
    CleanHasNoRecovered(doc, ids[root]);
  }

  lemma CleanHasNoRecovered(items: Items, root: Id)
    requires Clean(items, root)
    ensures Recovered(RawOf(items), root) == {}
  {
  }

  // ---------- export and import in one go ----------

  /** For every zoom and collapse state. */
  ghost predicate ShowsTheSame(items: Items, root: Id, ids: map<Id, Id>, doc: Items) {
    forall top, closed, closedNow :: root in ids && top in ids && ClosedAlike(ids, closed, closedNow) ==>
      SameRows(items, root, ids, doc, top, closed, closedNow)
  }

  lemma BuiltShowsTheSame(items: Items, root: Id, trash: bool, ids: map<Id, Id>, doc: Items)
    requires WellRooted(items, root)
    requires Renames(ids, Exported(items, root, trash)) && Built(Exported(items, root, trash), ids, doc)
    ensures ShowsTheSame(items, root, ids, doc)
  {
    hide Exported, Built;
    forall top, closed, closedNow | root in ids && top in ids && ClosedAlike(ids, closed, closedNow)
      ensures SameRows(items, root, ids, doc, top, closed, closedNow)
    {
      RowsCarryOver(items, root, trash, ids, doc, top, closed, closedNow);
    }
  }

  /** The item is there under its new id, under its parent's new id, with its text, completion and, of the trash, its flag. */
  ghost predicate ItemCarriedOver(items: Items, root: Id, trash: bool, ids: map<Id, Id>, doc: Items, id: Id)
    requires id in items
  {
    && id in ids && ids[id] in doc
    && doc[ids[id]].content == items[id].content && doc[ids[id]].isCompleted == items[id].isCompleted
    && (id == root ==> doc[ids[id]].parentId == ROOT_PARENT_SENTINEL && !doc[ids[id]].isDeleted)
    && (id != root ==>
          && id in EdgesOf(items, root) && EdgesOf(items, root)[id] in ids
          && doc[ids[id]].parentId == ids[EdgesOf(items, root)[id]]
          && doc[ids[id]].isDeleted == (trash && items[id].isDeleted))
  }

  lemma BuiltCarriesOver(items: Items, root: Id, trash: bool, ids: map<Id, Id>, doc: Items, id: Id)
    requires WellRooted(items, root) && id in items && (trash || id !in Deleted(RawOf(items), root))
    requires Renames(ids, Exported(items, root, trash)) && Built(Exported(items, root, trash), ids, doc)
    ensures ItemCarriedOver(items, root, trash, ids, doc, id)
  {
    ExportedMeans(items, root, trash, id);
    RootIsKept(items, root, trash);
    if id != root {
      KeptIsClosed(items, root, trash, id);
    }
    hide Exported, Deleted, EdgesOf;
    WrittenItem(Exported(items, root, trash), ids, doc, id);
  }

  lemma BuiltAddsNothing(items: Items, root: Id, trash: bool, ids: map<Id, Id>, doc: Items)
    requires Built(Exported(items, root, trash), ids, doc)
    ensures forall x :: x in doc ==> exists id :: id in ids && ids[id] == x
  {
    hide Exported, NewItem;
  }

  lemma ListedOutline(list: seq<PortableItem>, outline: Outline)
    requires ListsOutline(list, outline)
    ensures AreDistinct(list) && OutlineOf(list) == outline
  {
    OutlineIsListed(list);
    OutlineIsUnique(list);
  }

  /**
   What a document exports is accepted exactly when its root is there and the size
   is within bounds, and then the imported document shows the same outline.
   */
  method ExportAndImport(items: Items, root: Id, trash: bool, ids: map<Id, Id>) returns (verdict: Verdict, doc: Items)
    requires root != ROOT_PARENT_SENTINEL && ROOT_PARENT_SENTINEL !in items
    requires Renames(ids, Exported(items, root, trash))
    ensures verdict.Accepted? <==> root in items && |Exported(items, root, trash)| <= MAX_ITEMS
    ensures verdict.Accepted? ==> Built(Exported(items, root, trash), ids, doc) && ShowsTheSame(items, root, ids, doc)
    ensures verdict.Accepted? ==> forall id :: id in items && (trash || id !in Deleted(RawOf(items), root)) ==>
      ItemCarriedOver(items, root, trash, ids, doc, id)
    ensures verdict.Accepted? ==> forall x :: x in doc ==> exists id :: id in ids && ids[id] == x
    ensures !verdict.Accepted? ==> doc == map[]
  {
    hide Exported, ListsOutline, OutlineOf, AcceptableList, Acceptable, Renames, Built, ShowsTheSame;
    var list := PortableDocument(items, root, trash);
    ListedOutline(list, Exported(items, root, trash));
    ListIsJudged(list);
    ExportIsAccepted(items, root, trash);
    verdict, doc := InstantiatePortable(list, ids);
    if verdict.Accepted? {
      BuiltShowsTheSame(items, root, trash, ids, doc);
      forall id | id in items && (trash || id !in Deleted(RawOf(items), root))
        ensures ItemCarriedOver(items, root, trash, ids, doc, id)
      {
        BuiltCarriesOver(items, root, trash, ids, doc, id);
      }
      BuiltAddsNothing(items, root, trash, ids, doc);
    }
  }
}
