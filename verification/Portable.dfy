/**
 The portable outline: exporting a document, validating an import and building a
 fresh document from it under new ids.
 */
module Portable {
  import opened Collections
  import opened TreeTheory
  import opened Siblings
  import opened EffectiveTree
  import opened OutlineModel
  import opened OutlineIndex
  import opened OutlineMoves

  const MAX_ITEMS := 50000

  // `deleted` is present only when the trash is exported too.
  datatype PortableItem = PortableItem(id: Id, parentId: Option<Id>, rank: Rank, content: string, isCompleted: bool,
                                       deleted: Option<bool>)

  type Outline = map<Id, PortableItem>

  // ---------- export ----------

  ghost function ExportedItem(items: Items, root: Id, trash: bool, id: Id): PortableItem
    requires id in items
  {
    var it := items[id];
    PortableItem(id, if id == root then None else Some(EdgesOf(items, root)[id]), it.rank, it.content, it.isCompleted,
                 if trash then Some(it.isDeleted) else None)
  }

  ghost function Exported(items: Items, root: Id, trash: bool): Outline {
    map id | id in items && (trash || id !in Deleted(RawOf(items), root)) :: ExportedItem(items, root, trash, id)
  }

  ghost predicate ListsOutline(list: seq<PortableItem>, outline: Outline) {
    && (forall i, j :: 0 <= i < j < |list| ==> list[i].id != list[j].id)
    && (forall i :: 0 <= i < |list| ==> list[i].id in outline && outline[list[i].id] == list[i])
    && (forall id :: id in outline ==> exists i :: 0 <= i < |list| && list[i].id == id)
  }

  function ItemFrom(t: Tree, rootId: Id, trash: bool, id: Id, it: Item): PortableItem {
    PortableItem(id, if id == rootId then None else Some(if id in t.parents then t.parents[id] else rootId),
                 it.rank, it.content, it.isCompleted, if trash then Some(it.isDeleted) else None)
  }

  /** One item per exported node, in the order in which the nodes are read. */
  method PortableDocument(items: Items, rootId: Id, includeTrash: bool) returns (list: seq<PortableItem>)
    ensures ListsOutline(list, Exported(items, rootId, includeTrash))
  {
    hide Interpret, Exported, ListsOutline, Only;
    var nodes := AllNodes(items);
    var t := DeriveEffectiveTree(nodes, rootId);
    NodesById(nodes);
    list := [];
    ghost var seen: set<Id> := {};
    ghost var outline := Exported(items, rootId, includeTrash);
    NothingTaken(outline);
    for n := 0 to |nodes|
      invariant ListsOutline(list, Only(outline, seen))
      invariant forall i :: 0 <= i < |nodes| ==> (nodes[i].id in seen <==> i < n)
    {
      var id := nodes[n].id;
      NodeIsItem(items, nodes, n);
      ExportDecision(items, rootId, includeTrash, t, id);
      if includeTrash || id !in t.deleted {
        var item := ItemFrom(t, rootId, includeTrash, id, items[id]);
        OutlineTakes(list, outline, seen, item);
        list := list + [item];
      } else {
        OutlineSkips(outline, seen, id);
      }
      seen := seen + {id};
    }
    AllTaken(items, rootId, includeTrash, nodes, seen);
  }

  lemma NothingTaken(outline: Outline)
    ensures ListsOutline([], Only(outline, {}))
  {
  }

  lemma NodeIsItem(items: Items, nodes: seq<TreeNode>, n: nat)
    requires EffectiveTree.Lists(nodes, RawOf(items)) && n < |nodes|
    ensures nodes[n].id in items
  {
  }

  lemma OutlineSkips(outline: Outline, seen: set<Id>, id: Id)
    requires id !in outline
    ensures Only(outline, seen + {id}) == Only(outline, seen)
  {
  }

  ghost function Only(outline: Outline, seen: set<Id>): Outline {
    map id | id in outline && id in seen :: outline[id]
  }

  lemma ExportDecision(items: Items, root: Id, trash: bool, t: Tree, id: Id)
    requires t == Interpret(RawOf(items), root) && id in items
    ensures id in Exported(items, root, trash) <==> trash || id !in t.deleted
    ensures trash || id !in t.deleted ==> Exported(items, root, trash)[id] == ItemFrom(t, root, trash, id, items[id])
  {
  }

  lemma OutlineTakes(list: seq<PortableItem>, outline: Outline, seen: set<Id>, item: PortableItem)
    requires ListsOutline(list, Only(outline, seen)) && item.id !in seen
    requires item.id in outline && outline[item.id] == item
    ensures ListsOutline(list + [item], Only(outline, seen + {item.id}))
  {
    var more := list + [item];
    forall id | id in Only(outline, seen + {item.id})
      ensures exists i :: 0 <= i < |more| && more[i].id == id
    {
      if id == item.id {
        assert more[|list|].id == id;
      } else {
        assert id in Only(outline, seen);
        var i :| 0 <= i < |list| && list[i].id == id;
        assert more[i].id == id;
      }
    }
  }

  lemma AllTaken(items: Items, root: Id, trash: bool, nodes: seq<TreeNode>, seen: set<Id>)
    requires EffectiveTree.Lists(nodes, RawOf(items))
    requires forall i :: 0 <= i < |nodes| ==> nodes[i].id in seen
    ensures Only(Exported(items, root, trash), seen) == Exported(items, root, trash)
  {
    EveryIdIsListed(nodes, RawOf(items), seen);
    MapEquality(Only(Exported(items, root, trash), seen), Exported(items, root, trash));
  }

  // ---------- validation ----------

  datatype Verdict = Accepted | UnsupportedSize | InvalidItem | NotOneRoot | BrokenTree

  function RawOfOutline(outline: Outline): Raw {
    map id | id in outline ::
      Placement(if outline[id].parentId.None? then ROOT_PARENT_SENTINEL else outline[id].parentId.value, false)
  }

  ghost predicate IsRoot(outline: Outline, id: Id) {
    id in outline && outline[id].parentId.None?
  }

  /** One root, within size, and the placements are a tree under it. */
  ghost predicate Acceptable(outline: Outline) {
    && 0 < |outline| <= MAX_ITEMS
    && exists root :: IsOnlyRoot(outline, root) && Recovered(RawOfOutline(outline), root) == {}
  }

  ghost predicate IsOnlyRoot(outline: Outline, root: Id) {
    IsRoot(outline, root) && forall id :: IsRoot(outline, id) ==> id == root
  }

  ghost predicate AcceptableList(list: seq<PortableItem>) {
    exists outline :: ListsOutline(list, outline) && Acceptable(outline)
  }

  predicate FitsSize(list: seq<PortableItem>) {
    0 < |list| <= MAX_ITEMS
  }

  /** The parents named in the list. */
  ghost function ListedParents(list: seq<PortableItem>): map<Id, Id>
    requires AreDistinct(list)
  {
    map id | id in ItemIds(list) && ItemIn(list, id).parentId.Some? :: ItemIn(list, id).parentId.value
  }

  /**
   No id repeats, `r` is the one item without a parent, no item is called like the
   root's own parent, and from every item the parents lead up to `r`.
   */
  ghost predicate TreeUnder(list: seq<PortableItem>, r: Id) {
    && AreDistinct(list)
    && (forall i :: 0 <= i < |list| ==> (list[i].parentId.None? <==> list[i].id == r))
    && (exists i :: 0 <= i < |list| && list[i].id == r)
    && (forall i :: 0 <= i < |list| ==> list[i].parentId != Some(ROOT_PARENT_SENTINEL))
    && forall i :: 0 <= i < |list| ==> Above(ListedParents(list), r, list[i].id)
  }

  /** The checks in their order: size, repeated ids, roots, tree; the first that fails decides. */
  method ValidatePortable(list: seq<PortableItem>) returns (v: Verdict)
    ensures v.Accepted? <==> AcceptableList(list)
    ensures v.UnsupportedSize? <==> !(0 < |list| <= 50000)
    ensures v.UnsupportedSize? <==> !FitsSize(list)
    ensures v.InvalidItem? <==> 0 < |list| <= 50000 && exists i, j :: 0 <= i < j < |list| && list[i].id == list[j].id
    ensures v.Accepted? <==> 0 < |list| <= 50000 && exists r :: TreeUnder(list, r)
    ensures v.InvalidItem? <==> FitsSize(list) && !AreDistinct(list)
    ensures v.NotOneRoot? <==> FitsSize(list) && AreDistinct(list) && !exists i :: OnlyRootAt(list, i)
  {
    hide Acceptable, AcceptableList, Recovered, Interpret, ListsOutline, OutlineOf, TreeUnder;
    AcceptedMeans(list);
    var distinct := AllDistinct(list);
    ListIsJudged(list);
    if !distinct {
      return if FitsSize(list) then InvalidItem else UnsupportedSize;
    }
    ghost var outline := OutlineOf(list);
    OutlineIsListed(list);
    if !FitsSize(list) {
      AcceptableSize(outline);
      return UnsupportedSize;
    }
    var root := SingleRoot(list);
    if root.None? {
      RootlessIsNotAcceptable(list, outline);
      return NotOneRoot;
    }
    NodesAreOutline(list, outline);
    var t := DeriveEffectiveTree(NodesOf(list), root.value);
    OnlyRootDecides(list, outline, root.value);
    RecoveredOfTree(RawOfOutline(outline), root.value, t);
    v := if t.recovered == {} then Accepted else BrokenTree;
  }

  lemma RecoveredOfTree(raw: Raw, root: Id, t: Tree)
    requires t == Interpret(raw, root)
    ensures t.recovered == Recovered(raw, root)
  {
  }

  lemma AcceptedMeans(list: seq<PortableItem>)
    ensures AcceptableList(list) <==> 0 < |list| <= 50000 && exists r :: TreeUnder(list, r)
  {
    hide TreeUnder, Acceptable, AcceptableList, OutlineOf;
    ListIsJudged(list);
    if AreDistinct(list) {
      OutlineIsListed(list);
      forall r
        ensures TreeUnder(list, r) <==> IsOnlyRoot(OutlineOf(list), r) && Recovered(RawOfOutline(OutlineOf(list)), r) == {}
      {
        TreeUnderMeans(list, r);
      }
      AcceptableMeans(OutlineOf(list));
    } else {
      forall r
        ensures !TreeUnder(list, r)
      {
        TreesAreDistinct(list, r);
      }
    }
  }

  lemma AcceptableMeans(outline: Outline)
    ensures Acceptable(outline) <==>
      0 < |outline| <= 50000 && exists r :: IsOnlyRoot(outline, r) && Recovered(RawOfOutline(outline), r) == {}
  {
  }

  lemma TreesAreDistinct(list: seq<PortableItem>, r: Id)
    ensures TreeUnder(list, r) ==> AreDistinct(list)
  {
  }

  lemma ItemsOf(list: seq<PortableItem>)
    requires AreDistinct(list)
    ensures forall i :: 0 <= i < |list| ==> list[i].id in OutlineOf(list) && OutlineOf(list)[list[i].id] == list[i]
    ensures forall id :: id in OutlineOf(list) ==> exists i :: 0 <= i < |list| && list[i].id == id
    ensures forall id :: id in OutlineOf(list) <==> id in ItemIds(list)
    ensures forall id :: id in ItemIds(list) ==> OutlineOf(list)[id] == ItemIn(list, id)
  {
  }

  lemma TreeUnderMeans(list: seq<PortableItem>, r: Id)
    requires AreDistinct(list)
    ensures TreeUnder(list, r) <==> IsOnlyRoot(OutlineOf(list), r) && Recovered(RawOfOutline(OutlineOf(list)), r) == {}
  {
    var outline := OutlineOf(list);
    var raw := RawOfOutline(outline);
    ItemsOf(list);
    NothingRecovered(raw, r);
    hide OutlineOf, ItemIn, ItemIds, Recovered;
    if TreeUnder(list, r) {
      TreeHasItsRoot(list, r);
    }
    if IsOnlyRoot(outline, r) {
      ParentsAreEdges(list, r);
      if TreeUnder(list, r) {
        TreeIsFaultless(list, r);
      } else if Faultless(raw, r) {
        FaultlessIsTree(list, r);
      }
    }
  }

  lemma TreeHasItsRoot(list: seq<PortableItem>, r: Id)
    requires AreDistinct(list) && TreeUnder(list, r)
    ensures IsOnlyRoot(OutlineOf(list), r)
  {
    ItemsOf(list);
    hide OutlineOf, ItemIn, ItemIds;
    var i :| 0 <= i < |list| && list[i].id == r;
    assert IsRoot(OutlineOf(list), r);
    forall id | IsRoot(OutlineOf(list), id)
      ensures id == r
    {
      var j :| 0 <= j < |list| && list[j].id == id;
    }
  }

  lemma ParentsAreEdges(list: seq<PortableItem>, r: Id)
    requires AreDistinct(list) && IsOnlyRoot(OutlineOf(list), r)
    ensures ListedParents(list) == RawEdges(RawOfOutline(OutlineOf(list)), r)
  {
    var outline := OutlineOf(list);
    ItemsOf(list);
    hide OutlineOf, ItemIn, ItemIds;
    var g, h := ListedParents(list), RawEdges(RawOfOutline(outline), r);
    forall id
      ensures id in g <==> id in h
    {
      assert id in outline && outline[id].parentId.None? ==> IsRoot(outline, id);
    }
    MapEquality(g, h);
  }

  lemma TreeIsFaultless(list: seq<PortableItem>, r: Id)
    requires AreDistinct(list) && TreeUnder(list, r)
    requires ListedParents(list) == RawEdges(RawOfOutline(OutlineOf(list)), r)
    ensures Faultless(RawOfOutline(OutlineOf(list)), r)
  {
    var raw := RawOfOutline(OutlineOf(list));
    hide OutlineOf, ItemIn, ItemIds, TreeUnder, ListedParents;
    forall id | id in raw && id != r
      ensures raw[id].parentId in raw && raw[id].parentId != ROOT_PARENT_SENTINEL && Grounded(ListedParents(list), id)
    {
      ListedIsPlaced(list, r, id);
    }
    assert forall id :: id in RawEdges(raw, r) ==> id in raw && id != r;
  }

  lemma ListedIsPlaced(list: seq<PortableItem>, r: Id, id: Id)
    requires AreDistinct(list) && TreeUnder(list, r)
    requires ListedParents(list) == RawEdges(RawOfOutline(OutlineOf(list)), r)
    requires id in OutlineOf(list) && id != r
    ensures var outline := OutlineOf(list);
      var raw := RawOfOutline(outline);
      raw[id].parentId in raw && raw[id].parentId != ROOT_PARENT_SENTINEL && Grounded(ListedParents(list), id)
  {
    var outline := OutlineOf(list);
    var raw, g := RawOfOutline(outline), ListedParents(list);
    ItemsOf(list);
    hide OutlineOf, ItemIn, ItemIds, ListedParents;
    var i :| 0 <= i < |list| && list[i].id == id;
    assert list[i].parentId.Some? && list[i].parentId.value == raw[id].parentId;
    var k: nat :| Up(g, id, k) == r;
    assert r !in g;
    StepsInto(g, r, id, k);
    assert r in outline && g[id] == raw[id].parentId;
  }

  /** On the way to `r` the first step is `r` or has a parent itself. */
  lemma StepsInto(g: map<Id, Id>, r: Id, id: Id, k: nat)
    requires id in g && id != r && Up(g, id, k) == r && r !in g
    ensures g[id] == r || g[id] in g
  {
    assert Up(g, id, 0) == id;
    assert Up(g, id, 1) == g[id];
    if g[id] !in g {
      UpTerminal(g, id, 1, k);
    }
  }

  lemma FaultlessIsTree(list: seq<PortableItem>, r: Id)
    requires AreDistinct(list) && IsOnlyRoot(OutlineOf(list), r) && Faultless(RawOfOutline(OutlineOf(list)), r)
    requires ListedParents(list) == RawEdges(RawOfOutline(OutlineOf(list)), r)
    ensures TreeUnder(list, r)
  {
    var outline := OutlineOf(list);
    var raw, g := RawOfOutline(outline), ListedParents(list);
    ItemsOf(list);
    hide OutlineOf, ItemIn, ItemIds;
    forall i | 0 <= i < |list|
      ensures list[i].parentId.None? <==> list[i].id == r
      ensures list[i].parentId != Some(ROOT_PARENT_SENTINEL)
      ensures Above(g, r, list[i].id)
    {
      assert list[i].parentId.None? ==> IsRoot(outline, list[i].id);
      if list[i].id == r {
        assert Up(g, r, 0) == r;
      } else {
        assert raw[list[i].id].parentId != ROOT_PARENT_SENTINEL;
        var k := ForestReachesRoot(g, r, list[i].id);
      }
    }
    assert IsRoot(outline, r);
  }

  /** A list without repeated ids is judged by the outline it writes out. */
  lemma ListIsJudged(list: seq<PortableItem>)
    ensures if AreDistinct(list) then AcceptableList(list) <==> Acceptable(OutlineOf(list)) else !AcceptableList(list)
  {
    hide Acceptable;
    if AreDistinct(list) {
      OutlineIsListed(list);
      OutlineIsUnique(list);
    }
  }

  ghost predicate AreDistinct(list: seq<PortableItem>) {
    forall i, j :: 0 <= i < j < |list| ==> list[i].id != list[j].id
  }

  method AllDistinct(list: seq<PortableItem>) returns (distinct: bool)
    ensures distinct <==> AreDistinct(list)
  {
    var ids: set<Id> := {};
    for n := 0 to |list|
      invariant forall i, j :: 0 <= i < j < n ==> list[i].id != list[j].id
      invariant forall id :: id in ids <==> exists i :: 0 <= i < n && list[i].id == id
    {
      if list[n].id in ids {
        return false;
      }
      ids := ids + {list[n].id};
    }
    distinct := true;
  }

  ghost function OutlineOf(list: seq<PortableItem>): Outline
    requires AreDistinct(list)
  {
    map id | id in ItemIds(list) :: ItemIn(list, id)
  }

  ghost function ItemIds(list: seq<PortableItem>): set<Id> {
    set i | 0 <= i < |list| :: list[i].id
  }

  ghost function ItemIn(list: seq<PortableItem>, id: Id): PortableItem
    requires id in ItemIds(list)
  {
    var i :| 0 <= i < |list| && list[i].id == id;
    list[i]
  }

  lemma OutlineIsListed(list: seq<PortableItem>)
    requires AreDistinct(list)
    ensures ListsOutline(list, OutlineOf(list)) && |OutlineOf(list)| == |list|
  {
    var outline := OutlineOf(list);
    IdsCount(list, outline.Keys);
    assert |outline| == |outline.Keys|;
  }

  lemma {:induction false} IdsCount(list: seq<PortableItem>, ids: set<Id>)
    requires AreDistinct(list)
    requires forall id :: id in ids <==> exists i :: 0 <= i < |list| && list[i].id == id
    ensures |ids| == |list|
    decreases |list|
  {
    if list == [] {
      assert ids == {};
    } else {
      var n := |list| - 1;
      var last := list[n].id;
      forall id
        ensures id in ids - {last} <==> exists i :: 0 <= i < n && list[..n][i].id == id
      {
        if id in ids - {last} {
          var i :| 0 <= i < |list| && list[i].id == id;
          assert list[..n][i].id == id;
        }
        if i :| 0 <= i < n && list[..n][i].id == id {
          assert list[i].id == id;
        }
      }
      IdsCount(list[..n], ids - {last});
      assert ids == (ids - {last}) + {last};
    }
  }

  lemma OutlineIsUnique(list: seq<PortableItem>)
    requires AreDistinct(list)
    ensures forall outline :: ListsOutline(list, outline) ==> outline == OutlineOf(list)
  {
    forall outline | ListsOutline(list, outline)
      ensures outline == OutlineOf(list)
    {
      MapEquality(outline, OutlineOf(list));
    }
  }

  lemma AcceptableSize(outline: Outline)
    ensures Acceptable(outline) ==> 0 < |outline| <= MAX_ITEMS
  {
  }

  method SingleRoot(list: seq<PortableItem>) returns (root: Option<Id>)
    ensures root.Some? <==> exists i :: OnlyRootAt(list, i)
    ensures root.Some? ==> exists i :: OnlyRootAt(list, i) && list[i].id == root.value
  {
    root := None;
    var count := 0;
    ghost var at := 0;
    for n := 0 to |list|
      invariant count == 0 ==> root.None? && forall i :: 0 <= i < n ==> list[i].parentId.Some?
      invariant count == 1 ==> 0 <= at < n && root == Some(list[at].id) && OnlyRootAt(list[..n], at)
      invariant count >= 2 ==> exists i, j :: 0 <= i < j < n && list[i].parentId.None? && list[j].parentId.None?
      invariant count >= 0
    {
      if list[n].parentId.None? {
        if count == 1 {
          assert list[at].parentId.None? && list[n].parentId.None?;
        }
        count := count + 1;
        root, at := Some(list[n].id), n;
      }
    }
    assert list[..|list|] == list;
    if count != 1 {
      root := None;
    }
  }

  ghost predicate OnlyRootAt(list: seq<PortableItem>, i: int) {
    0 <= i < |list| && list[i].parentId.None? && forall j :: 0 <= j < |list| && j != i ==> list[j].parentId.Some?
  }

  lemma RootlessIsNotAcceptable(list: seq<PortableItem>, outline: Outline)
    requires ListsOutline(list, outline) && !exists i :: OnlyRootAt(list, i)
    ensures !Acceptable(outline)
  {
    if root :| IsOnlyRoot(outline, root) {
      var i :| 0 <= i < |list| && list[i].id == root;
      forall j | 0 <= j < |list| && j != i
        ensures list[j].parentId.Some?
      {
        assert IsRoot(outline, list[j].id) <==> list[j].parentId.None?;
      }
      assert OnlyRootAt(list, i);
      assert false;
    }
  }

  function NodeOf(item: PortableItem): TreeNode {
    TreeNode(item.id, if item.parentId.None? then ROOT_PARENT_SENTINEL else item.parentId.value, false)
  }

  function NodesOf(list: seq<PortableItem>): (nodes: seq<TreeNode>)
    ensures |nodes| == |list| && forall i :: 0 <= i < |list| ==> nodes[i] == NodeOf(list[i])
  {
    seq(|list|, i requires 0 <= i < |list| => NodeOf(list[i]))
  }

  lemma NodesAreOutline(list: seq<PortableItem>, outline: Outline)
    requires ListsOutline(list, outline)
    ensures Distinct(NodesOf(list)) && ById(NodesOf(list)) == RawOfOutline(outline)
  {
    var nodes := NodesOf(list);
    var a, b := ById(nodes), RawOfOutline(outline);
    hide ById, RawOfOutline, ListsOutline, NodeOf;
    forall id
      ensures id in a.Keys <==> id in b.Keys
      ensures id in a ==> a[id] == b[id]
    {
      NodeIsOutlined(list, outline, id);
    }
    SetEquality(a.Keys, b.Keys);
    MapEquality(a, b);
  }

  lemma NodeIsOutlined(list: seq<PortableItem>, outline: Outline, id: Id)
    requires ListsOutline(list, outline) && Distinct(NodesOf(list))
    ensures id in ById(NodesOf(list)) <==> id in RawOfOutline(outline)
    ensures id in ById(NodesOf(list)) ==> ById(NodesOf(list))[id] == RawOfOutline(outline)[id]
  {
    var nodes := NodesOf(list);
    if id in outline {
      var i :| 0 <= i < |list| && list[i].id == id;
      NodeInById(nodes, i);
      assert RawOfOutline(outline)[id] == Placement(nodes[i].parentId, nodes[i].isDeleted);
    }
  }

  lemma NodeInById(nodes: seq<TreeNode>, i: nat)
    requires Distinct(nodes) && i < |nodes|
    ensures nodes[i].id in ById(nodes)
    ensures ById(nodes)[nodes[i].id] == Placement(nodes[i].parentId, nodes[i].isDeleted)
  {
  }

  lemma OnlyRootDecides(list: seq<PortableItem>, outline: Outline, root: Id)
    requires ListsOutline(list, outline) && 0 < |outline| <= MAX_ITEMS
    requires exists i :: OnlyRootAt(list, i) && list[i].id == root
    ensures Acceptable(outline) <==> Recovered(RawOfOutline(outline), root) == {}
  {
    hide Recovered;
    var i :| OnlyRootAt(list, i) && list[i].id == root;
    assert IsRoot(outline, root);
    forall id | IsRoot(outline, id)
      ensures id == root
    {
      var j :| 0 <= j < |list| && list[j].id == id;
      assert j == i;
    }
    assert IsOnlyRoot(outline, root);
  }

  // ---------- every export of a document with its root is accepted ----------

  ghost function Kept(items: Items, root: Id, trash: bool): set<Id> {
    Exported(items, root, trash).Keys
  }

  /** With the trash every item is exported, without it exactly those that are not deleted; each with its own fields. */
  lemma ExportedMeans(items: Items, root: Id, trash: bool, id: Id)
    ensures id in Exported(items, root, trash) <==> id in items && (trash || id !in Deleted(RawOf(items), root))
    ensures id in Exported(items, root, trash) ==>
      var e := Exported(items, root, trash)[id];
      && e.id == id && e.rank == items[id].rank && e.content == items[id].content
      && e.isCompleted == items[id].isCompleted && e.deleted == (if trash then Some(items[id].isDeleted) else None)
      && (id == root ==> e.parentId == None)
      && (id != root ==> id in EdgesOf(items, root) && e.parentId == Some(EdgesOf(items, root)[id]))
  {
    hide Deleted;
    if id in items && id != root {
      EffectiveTreeIsRooted(RawOf(items), root);
    }
  }

  lemma KeptIsClosed(items: Items, root: Id, trash: bool, id: Id)
    requires id in Kept(items, root, trash) && id != root
    ensures id in EdgesOf(items, root)
    ensures var p := EdgesOf(items, root)[id]; p == root || p in Kept(items, root, trash)
  {
    EffectiveTreeIsRooted(RawOf(items), root);
    DeletedIsInherited(RawOf(items), root, id);
  }

  /** The export's placements are the effective ones, cut down to what is exported. */
  lemma ExportedEdges(items: Items, root: Id, trash: bool)
    requires root != ROOT_PARENT_SENTINEL
    ensures var g := RawEdges(RawOfOutline(Exported(items, root, trash)), root);
      && g.Keys == Kept(items, root, trash) - {root}
      && forall id :: id in g ==> id in EdgesOf(items, root) && g[id] == EdgesOf(items, root)[id]
  {
    EffectiveTreeIsRooted(RawOf(items), root);
  }

  lemma {:induction false} PartWalk(part: map<Id, Id>, g: map<Id, Id>, id: Id, k: nat)
    requires forall x :: x in part ==> x in g && g[x] == part[x]
    ensures Up(part, id, k) == Up(g, id, k) || Up(part, id, k) !in part
  {
    if k > 0 {
      PartWalk(part, g, id, k - 1);
    }
  }

  /** Part of a forest is a forest. */
  lemma PartIsForest(part: map<Id, Id>, g: map<Id, Id>)
    requires Forest(g) && forall x :: x in part ==> x in g && g[x] == part[x]
    ensures Forest(part)
  {
    forall id | id in part
      ensures Grounded(part, id)
    {
      var k: nat :| Up(g, id, k) !in g;
      PartWalk(part, g, id, k);
      assert Up(part, id, k) !in part;
    }
  }

  lemma ExportIsATree(items: Items, root: Id, trash: bool)
    requires root in items && root != ROOT_PARENT_SENTINEL && ROOT_PARENT_SENTINEL !in items
    ensures Recovered(RawOfOutline(Exported(items, root, trash)), root) == {}
    ensures Edges(RawOfOutline(Exported(items, root, trash)), root)
         == RawEdges(RawOfOutline(Exported(items, root, trash)), root)
  {
    var raw := RawOfOutline(Exported(items, root, trash));
    ExportedEdges(items, root, trash);
    EffectiveTreeIsRooted(RawOf(items), root);
    PartIsForest(RawEdges(raw, root), EdgesOf(items, root));
    forall id | id in raw && id != root
      ensures raw[id].parentId in raw && raw[id].parentId != ROOT_PARENT_SENTINEL
    {
      KeptIsClosed(items, root, trash, id);
      assert RawEdges(raw, root)[id] == EdgesOf(items, root)[id];
      RootIsKept(items, root, trash);
    }
    NothingRecovered(raw, root);
  }

  lemma RootIsKept(items: Items, root: Id, trash: bool)
    ensures root in Kept(items, root, trash) <==> root in items
  {
  }

  lemma OnlyRootExported(items: Items, root: Id, trash: bool)
    ensures forall id :: IsRoot(Exported(items, root, trash), id) <==> id == root && root in items
  {
    RootIsKept(items, root, trash);
  }

  /** A document's export is accepted exactly when the root is there and the size is within bounds. */
  lemma ExportIsAccepted(items: Items, root: Id, trash: bool)
    requires root != ROOT_PARENT_SENTINEL && ROOT_PARENT_SENTINEL !in items
    ensures Acceptable(Exported(items, root, trash))
       <==> root in items && |Exported(items, root, trash)| <= MAX_ITEMS
  {
    hide Recovered, Exported;
    var outline := Exported(items, root, trash);
    OnlyRootExported(items, root, trash);
    RootIsKept(items, root, trash);
    if root in items {
      ExportIsATree(items, root, trash);
      assert IsOnlyRoot(outline, root);
      assert root in outline.Keys;
      assert |outline.Keys| > 0;
    }
  }
}
