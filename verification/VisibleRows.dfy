/**
 The rows an outline shows: the pre-order listing of its live items, with
 collapsed subtrees left out.
 */
module VisibleRows {
  import opened Collections
  import opened TreeTheory
  import opened Siblings
  import opened EffectiveTree
  import opened OutlineModel
  import opened OutlineIndex
  import opened OutlineMoves
  import opened OutlineMerge
  import PreOrder

  datatype VisibleRow = VisibleRow(id: Id, depth: nat, recovered: bool)

  /** Effective parents and live children lists. */
  ghost function ShapeOf(items: Items, root: Id): PreOrder.Shape {
    PreOrder.Shape(EdgesOf(items, root), map p | p in Hosts(items, root) :: ChildIds(items, root, p))
  }

  lemma KidsAreChildren(items: Items, root: Id, p: Id)
    ensures PreOrder.KidsOf(ShapeOf(items, root), p) == ChildIds(items, root, p)
  {
    hide EdgesOf, Kids, Live;
    ListedIsChildren(items, root, p);
  }

  lemma ShownMeansLive(items: Items, root: Id, id: Id)
    ensures PreOrder.Shown(ShapeOf(items, root), id) <==> Live(items, root, id)
  {
    hide EdgesOf, Kids, Live, Children, ChildIds;
    if id in EdgesOf(items, root) {
      var p := EdgesOf(items, root)[id];
      KidsAreChildren(items, root, p);
      ListedAsKid(items, root, p, id);
    }
    if Live(items, root, id) {
      LiveHasEdge(items, root, id);
    }
  }

  lemma ShapeIsWell(items: Items, root: Id)
    ensures PreOrder.WellShaped(ShapeOf(items, root))
  {
    hide Kids, Live, Children;
    var sh := ShapeOf(items, root);
    EffectiveTreeIsRooted(RawOf(items), root);
    forall p, i | 0 <= i < |PreOrder.KidsOf(sh, p)|
      ensures PreOrder.IsKid(sh, p, PreOrder.KidsOf(sh, p)[i])
    {
      KidsAreChildren(items, root, p);
      var x := ChildIds(items, root, p)[i];
      ListedAsKid(items, root, p, x);
      LiveHasEdge(items, root, x);
    }
    forall p, i, j | 0 <= i < j < |PreOrder.KidsOf(sh, p)|
      ensures PreOrder.KidsOf(sh, p)[i] != PreOrder.KidsOf(sh, p)[j]
    {
      KidsAreChildren(items, root, p);
      ListedOnce(items, root, p, i, j);
    }
  }

  /** The rows below `top`; what is recovered is marked. */
  ghost function RowsOf(items: Items, root: Id, top: Id, collapsed: set<Id>): seq<VisibleRow> {
    ShapeIsWell(items, root);
    Marked(PreOrder.RowsBelow(ShapeOf(items, root), collapsed, top), Recovered(RawOf(items), root))
  }

  function Marked(rows: seq<PreOrder.Row>, recovered: set<Id>): (r: seq<VisibleRow>)
    ensures |r| == |rows|
  {
    seq(|rows|, i requires 0 <= i < |rows| => VisibleRow(rows[i].id, rows[i].depth, rows[i].id in recovered))
  }

  // ---------- what the rows show ----------

  /** Some collapsed item stands strictly between `top` and `id`. */
  ghost predicate FoldedAway(items: Items, root: Id, top: Id, collapsed: set<Id>, id: Id) {
    var g := EdgesOf(items, root);
    exists a :: a in collapsed && a != id && a != top && Above(g, a, id) && Above(g, top, a)
  }

  /** `id` is live, somewhere below `top`, and not folded away. */
  ghost predicate Visible(items: Items, root: Id, top: Id, collapsed: set<Id>, id: Id) {
    && Live(items, root, id) && id != top && Above(EdgesOf(items, root), top, id)
    && !FoldedAway(items, root, top, collapsed, id)
  }

  lemma NothingAboveItself(g: map<Id, Id>, x: Id, y: Id)
    requires Forest(g) && Above(g, x, y) && Above(g, y, x)
    ensures x == y
  {
    if x !in g {
      NothingAboveTerminal(g, y, x);
    } else {
      AboveDepth(g, y, x);
      if y in g {
        AboveDepth(g, x, y);
      } else {
        NothingAboveTerminal(g, x, y);
      }
    }
  }

  lemma ExposedIsVisible(items: Items, root: Id, top: Id, collapsed: set<Id>, id: Id, k: nat)
    requires PreOrder.Exposed(ShapeOf(items, root), collapsed, top, id, k)
    ensures Visible(items, root, top, collapsed, id)
    ensures LevelsBelow(items, root, top, id, k + 1)
  {
    hide EdgesOf, Kids, Live, Children;
    var g := EdgesOf(items, root);
    EdgesAreForest(items, root);
    assert Up(g, id, 0) == id;
    assert PreOrder.Shown(ShapeOf(items, root), Up(g, id, 0));
    ShownMeansLive(items, root, id);
    LiveHasEdge(items, root, id);
    StepsAreProper(g, id, k + 1, top);
    if FoldedAway(items, root, top, collapsed, id) {
      var a :| a in collapsed && a != id && a != top && Above(g, a, id) && Above(g, top, a);
      var j: nat :| Up(g, id, j) == a;
      if j > k + 1 {
        UpAdd(g, id, k + 1, j - (k + 1));
        assert Above(g, a, top);
        NothingAboveItself(g, a, top);
      }
      assert false;
    }
    assert forall j: nat :: j <= k ==> PreOrder.Shown(ShapeOf(items, root), Up(g, id, j));
  }

  lemma EdgesAreForest(items: Items, root: Id)
    ensures Forest(EdgesOf(items, root)) && ClosedUnder(EdgesOf(items, root), root)
  {
    EffectiveTreeIsRooted(RawOf(items), root);
  }

  /** In a forest a proper step never stays in place. */
  lemma StepsAreProper(g: map<Id, Id>, id: Id, n: nat, top: Id)
    requires Forest(g) && id in g && n > 0 && Up(g, id, n) == top
    ensures id != top
  {
    if id == top {
      assert OnCycle(g, id);
      ForestIsAcyclic(g);
      assert false;
    }
  }

  /** `id` is `n` effective levels below `top`. */
  ghost predicate LevelsBelow(items: Items, root: Id, top: Id, id: Id, n: nat) {
    var g := EdgesOf(items, root);
    Up(g, id, n) == top && forall j: nat :: j < n ==> Up(g, id, j) in g
  }

  lemma VisibleIsExposed(items: Items, root: Id, top: Id, collapsed: set<Id>, id: Id) returns (k: nat)
    requires Visible(items, root, top, collapsed, id)
    ensures PreOrder.Exposed(ShapeOf(items, root), collapsed, top, id, k)
  {
    hide EdgesOf, Kids, Live, Children;
    var g := EdgesOf(items, root);
    var sh := ShapeOf(items, root);
    EdgesAreForest(items, root);
    var n := FirstMeeting(g, top, id);
    assert Up(g, id, 0) == id;
    k := n - 1;
    forall j: nat | j <= k
      ensures PreOrder.Shown(sh, Up(g, id, j))
      ensures j > 0 ==> Up(g, id, j) !in collapsed
    {
      var a := Up(g, id, j);
      assert Above(g, a, id) && a != top;
      UpAdd(g, id, j, n - j);
      assert Above(g, top, a);
      if a !in g {
        UpTerminal(g, id, j, n);
        assert false;
      }
      AncestorIsLive(items, root, id, a);
      ShownMeansLive(items, root, a);
      if j > 0 {
        UpAdd(g, id, 0, j);
        LiveHasEdge(items, root, id);
        StepsAreProper(g, id, j, a);
        if a in collapsed {
          assert false;
        }
      }
    }
  }

  /** Whatever a live item hangs under is live, up to the root. */
  lemma AncestorIsLive(items: Items, root: Id, id: Id, a: Id)
    requires Live(items, root, id) && Above(EdgesOf(items, root), a, id) && a in EdgesOf(items, root)
    ensures Live(items, root, a)
  {
    hide Kids, Children;
    var g, marked := EdgesOf(items, root), Tombstones(RawOf(items), root);
    EffectiveTreeIsRooted(RawOf(items), root);
    LiveMeansNotHidden(items, root, id);
    LiveMeansNotHidden(items, root, a);
    if Hidden(g, marked, a) {
      var b :| b in marked && Above(g, b, a);
      AboveTransitive(g, b, a, id);
      assert false;
    }
  }

  /**
   The rows below `top` are exactly the visible items: each once, at its level,
   marked when recovered.
   */
  lemma RowsAreVisible(items: Items, root: Id, top: Id, collapsed: set<Id>)
    ensures var rows := RowsOf(items, root, top, collapsed);
      && (forall n :: 0 <= n < |rows| ==>
            Visible(items, root, top, collapsed, rows[n].id)
            && LevelsBelow(items, root, top, rows[n].id, rows[n].depth + 1)
            && (rows[n].recovered <==> rows[n].id in Recovered(RawOf(items), root)))
      && (forall id :: Visible(items, root, top, collapsed, id) ==> exists n :: 0 <= n < |rows| && rows[n].id == id)
      && (forall m, n :: 0 <= m < n < |rows| ==> rows[m].id != rows[n].id)
  {
    hide EdgesOf, Visible, LevelsBelow;
    var rows := RowsOf(items, root, top, collapsed);
    var sh := ShapeOf(items, root);
    ShapeIsWell(items, root);
    hide PreOrder.WellShaped, PreOrder.RowsBelow, PreOrder.Exposed, ShapeOf;
    forall n | 0 <= n < |rows|
      ensures Visible(items, root, top, collapsed, rows[n].id)
      ensures LevelsBelow(items, root, top, rows[n].id, rows[n].depth + 1)
    {
      PreOrder.RowIsExposed(sh, collapsed, top, n);
      ExposedIsVisible(items, root, top, collapsed, rows[n].id, rows[n].depth);
    }
    forall id | Visible(items, root, top, collapsed, id)
      ensures exists n :: 0 <= n < |rows| && rows[n].id == id
    {
      var k := VisibleIsExposed(items, root, top, collapsed, id);
      var n := PreOrder.ExposedHasRow(sh, collapsed, top, id, k);
      assert rows[n].id == id;
    }
    forall m, n | 0 <= m < n < |rows|
      ensures rows[m].id != rows[n].id
    {
      PreOrder.RowsInOrder(sh, collapsed, top, m, n);
    }
  }

  /** Read order: an ancestor first; otherwise the branch whose sibling is lower by (rank, id). */
  ghost predicate ReadBefore(items: Items, root: Id, x: Id, y: Id) {
    var g := EdgesOf(items, root);
    || (x != y && Above(g, x, y))
    || exists u, v :: Apart(items, root, u, v) && Above(g, u, x) && Above(g, v, y)
  }

  /** Two live siblings, `u` before `v`. */
  ghost predicate Apart(items: Items, root: Id, u: Id, v: Id) {
    && Live(items, root, u) && Live(items, root, v)
    && EdgesOf(items, root)[u] == EdgesOf(items, root)[v]
    && Before(Sibling(u, items[u].rank), Sibling(v, items[v].rank))
  }

  lemma ChildrenApart(items: Items, root: Id, p: Id, a: nat, b: nat)
    requires a < b < |ChildIds(items, root, p)|
    ensures Apart(items, root, ChildIds(items, root, p)[a], ChildIds(items, root, p)[b])
  {
    var s := Children(items, root, p);
    assert s[a] in Members(s) && s[b] in Members(s);
    KidsMembers(items, root, p, s[a]);
    KidsMembers(items, root, p, s[b]);
    assert Before(s[a], s[b]);
  }

  lemma PrecedesIsReadBefore(items: Items, root: Id, x: Id, y: Id)
    requires PreOrder.Precedes(ShapeOf(items, root), x, y)
    ensures ReadBefore(items, root, x, y)
  {
    hide EdgesOf, Kids, Live, Children, ChildIds, Apart;
    var sh := ShapeOf(items, root);
    var g := EdgesOf(items, root);
    if !(x != y && Above(g, x, y)) {
      var p, a: nat, b: nat :| PreOrder.Branches(sh, p, a, b, x, y);
      KidsAreChildren(items, root, p);
      ChildrenApart(items, root, p, a, b);
    }
  }

  /** The rows stand in read order, so no row is inside the subtree of a later one. */
  lemma RowsInReadOrder(items: Items, root: Id, top: Id, collapsed: set<Id>, m: nat, n: nat)
    requires m < n < |RowsOf(items, root, top, collapsed)|
    ensures var rows := RowsOf(items, root, top, collapsed);
      && ReadBefore(items, root, rows[m].id, rows[n].id)
      && !Above(EdgesOf(items, root), rows[n].id, rows[m].id)
  {
    hide EdgesOf, ReadBefore;
    ShapeIsWell(items, root);
    var rows := RowsOf(items, root, top, collapsed);
    PreOrder.RowsInOrder(ShapeOf(items, root), collapsed, top, m, n);
    PrecedesIsReadBefore(items, root, rows[m].id, rows[n].id);
    PreOrder.PrecedesIsNotAbove(ShapeOf(items, root), rows[m].id, rows[n].id);
  }

  /** With nothing collapsed, the rows below the root are exactly the live items. */
  lemma WholeOutlineIsListed(items: Items, root: Id, id: Id)
    ensures var rows := RowsOf(items, root, root, {});
      Live(items, root, id) <==> exists n :: 0 <= n < |rows| && rows[n].id == id
    ensures var rows := RowsOf(items, root, root, {});
      (exists n :: 0 <= n < |rows| && rows[n].id == id) <==>
        id in items && id != root && forall k: nat :: !UnderTombstone(items, root, id, k)
  {
    hide EdgesOf, Live;
    LiveMeans(items, root, id);
    RowsAreVisible(items, root, root, {});
    if Live(items, root, id) {
      LiveIsBelowRoot(items, root, id);
      assert !FoldedAway(items, root, root, {}, id);
      assert Visible(items, root, root, {}, id);
    }
  }

  /** The item `k` steps up the effective parents is deleted and is not the root. */
  ghost predicate UnderTombstone(items: Items, root: Id, id: Id, k: nat) {
    var a := Up(EdgesOf(items, root), id, k);
    a in items && a != root && items[a].isDeleted
  }

  /** Live: an item below the root with no deleted item on its way up, itself included. */
  lemma LiveMeans(items: Items, root: Id, id: Id)
    ensures Live(items, root, id) <==> id in items && id != root && forall k: nat :: !UnderTombstone(items, root, id, k)
  {
    DeletedMeans(RawOf(items), root, id);
    hide Deleted, EdgesOf;
    forall k: nat
      ensures UnderTombstone(items, root, id, k) <==> TombstoneAt(RawOf(items), root, id, k)
    {
      TombstonesAlike(items, root, id, k);
    }
  }

  lemma TombstonesAlike(items: Items, root: Id, id: Id, k: nat)
    ensures UnderTombstone(items, root, id, k) <==> TombstoneAt(RawOf(items), root, id, k)
  {
    hide Edges;
  }

  lemma LiveIsBelowRoot(items: Items, root: Id, id: Id)
    requires Live(items, root, id)
    ensures id != root && Above(EdgesOf(items, root), root, id)
  {
    EffectiveTreeIsRooted(RawOf(items), root);
  }

  /** Merging any row into the row right above it keeps the promise of the merge. */
  lemma MergeIntoRowAbove(before: Items, after: Items, root: Id, top: Id, collapsed: set<Id>, n: nat, ranks: seq<Rank>)
    requires 0 < n < |RowsOf(before, root, top, collapsed)|
    requires var id := RowsOf(before, root, top, collapsed)[n].id;
      var target := RowsOf(before, root, top, collapsed)[n - 1].id;
      Ready(before, root, id) && target in before && MergeStep(before, after, root, id, target, ranks)
    ensures Merged(before, after, root, RowsOf(before, root, top, collapsed)[n].id,
                   RowsOf(before, root, top, collapsed)[n - 1].id)
  {
    hide EdgesOf, Live, MergeStep, Merged, RowsOf, Ready;
    var rows := RowsOf(before, root, top, collapsed);
    RowsAreVisible(before, root, top, collapsed);
    RowsInReadOrder(before, root, top, collapsed, n - 1, n);
    assert Visible(before, root, top, collapsed, rows[n - 1].id);
    MergeMeets(before, after, root, rows[n].id, rows[n - 1].id, ranks);
  }

  // ---------- the two traversals ----------

  method ChildLists(index: Index, ghost items: Items, ghost root: Id) returns (kids: map<Id, seq<Id>>)
    requires index == IndexOf(items, root)
    ensures kids == ShapeOf(items, root).kids
  {
    kids := map p | p in index.children :: Ids(index.children[p]);
  }

  /** Ids in read order, for moving the caret and for selections. */
  method FlattenVisible(index: Index, top: Id, collapsed: set<Id>, ghost items: Items, ghost root: Id)
    returns (out: seq<Id>)
    requires index == IndexOf(items, root)
    ensures |out| == |RowsOf(items, root, top, collapsed)|
    ensures forall n :: 0 <= n < |out| ==> out[n] == RowsOf(items, root, top, collapsed)[n].id
  {
    var kids := ChildLists(index, items, root);
    ShapeIsWell(items, root);
    var rows := PreOrder.Traverse(kids, top, collapsed, ShapeOf(items, root));
    out := seq(|rows|, i requires 0 <= i < |rows| => rows[i].id);
  }

  /** The rows on screen, with their indentation. */
  method VisibleRowsOf(index: Index, top: Id, collapsed: set<Id>, ghost items: Items, ghost root: Id)
    returns (out: seq<VisibleRow>)
    requires index == IndexOf(items, root)
    ensures out == RowsOf(items, root, top, collapsed)
  {
    var kids := ChildLists(index, items, root);
    ShapeIsWell(items, root);
    var rows := PreOrder.Traverse(kids, top, collapsed, ShapeOf(items, root));
    out := Marked(rows, index.recovered);
  }
}
