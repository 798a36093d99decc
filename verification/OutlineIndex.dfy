/**
 The cached index of an outline: effective parents, live children lists and
 recovered ids, derived from the document in one pass over its items.
 */
module OutlineIndex {
  import opened Collections
  import opened TreeTheory
  import opened Siblings
  import opened EffectiveTree
  import opened OutlineModel

  datatype Index = Index(parents: map<Id, Id>, children: map<Id, seq<Sibling>>, recovered: set<Id>)

  /** The children list the index holds for `p`; absent means no live child. */
  function Listed(index: Index, p: Id): seq<Sibling> {
    if p in index.children then index.children[p] else []
  }

  /** The effective parents that have a live child. */
  ghost function Hosts(items: Items, root: Id): set<Id> {
    set id | id in items && Live(items, root, id) :: EdgesOf(items, root)[id]
  }

  ghost function Lists(items: Items, root: Id): map<Id, seq<Sibling>> {
    map p | p in Hosts(items, root) :: Children(items, root, p)
  }

  /** A fresh derivation from the document. */
  ghost function IndexOf(items: Items, root: Id): Index {
    Index(Parents(RawOf(items), root),
          Lists(items, root),
          Recovered(RawOf(items), root))
  }

  lemma ListedIsChildren(items: Items, root: Id, p: Id)
    ensures Listed(IndexOf(items, root), p) == Children(items, root, p)
  {
    if p !in Hosts(items, root) {
      assert Kids(items, root, p) == {} by {
        forall e
          ensures e !in Kids(items, root, p)
        {
          KidsMembers(items, root, p, e);
        }
      }
      assert InOrder({}) == [];
    }
  }

  /** Same ids, placements and tombstones. */
  ghost predicate SameStructure(a: Items, b: Items) {
    && a.Keys == b.Keys
    && forall id :: id in a ==>
         a[id].parentId == b[id].parentId && a[id].rank == b[id].rank
         && a[id].isDeleted == b[id].isDeleted
  }

  lemma SameRaw(a: Items, b: Items)
    requires SameStructure(a, b)
    ensures RawOf(a) == RawOf(b)
  {
    assert RawOf(a).Keys == a.Keys && RawOf(b).Keys == b.Keys;
    forall id | id in a
      ensures RawOf(a)[id] == RawOf(b)[id]
    {
    }
  }

  lemma SameKids(a: Items, b: Items, root: Id, p: Id)
    requires SameStructure(a, b) && RawOf(a) == RawOf(b)
    ensures Kids(a, root, p) == Kids(b, root, p)
  {
    forall e
      ensures e in Kids(a, root, p) <==> e in Kids(b, root, p)
    {
      KidsMembers(a, root, p, e);
      KidsMembers(b, root, p, e);
    }
  }

  /** Text and completion play no part in what the outline shows. */
  lemma OutlineIgnoresText(a: Items, b: Items, root: Id)
    requires SameStructure(a, b)
    ensures Clean(a, root) <==> Clean(b, root)
    ensures EdgesOf(a, root) == EdgesOf(b, root)
    ensures forall p :: Children(a, root, p) == Children(b, root, p)
    ensures forall id :: Live(a, root, id) <==> Live(b, root, id)
  {
    SameRaw(a, b);
    forall p
      ensures Children(a, root, p) == Children(b, root, p)
    {
      SameKids(a, b, root, p);
    }
  }

  lemma IndexIgnoresText(a: Items, b: Items, root: Id)
    requires SameStructure(a, b)
    ensures IndexOf(a, root) == IndexOf(b, root)
  {
    hide Live, EdgesOf, Children;
    SameRaw(a, b);
    OutlineIgnoresText(a, b, root);
    SameHosts(a, b, root);
    MapEquality(Lists(a, root), Lists(b, root));
  }

  lemma LiveHasParent(items: Items, root: Id)
    ensures forall id :: Live(items, root, id) ==> id in EdgesOf(items, root)
  {
    hide Deleted, CycleBreaks;
  }

  lemma SameHosts(a: Items, b: Items, root: Id)
    requires a.Keys == b.Keys && EdgesOf(a, root) == EdgesOf(b, root)
    requires forall id :: Live(a, root, id) <==> Live(b, root, id)
    ensures Hosts(a, root) == Hosts(b, root)
  {
    hide Live, EdgesOf;
    LiveHasParent(a, root);
    forall p
      ensures p in Hosts(a, root) <==> p in Hosts(b, root)
    {
      if p in Hosts(a, root) {
        var id :| id in a && Live(a, root, id) && EdgesOf(a, root)[id] == p;
        assert id in b && Live(b, root, id);
      }
      if p in Hosts(b, root) {
        var id :| id in b && Live(b, root, id) && EdgesOf(b, root)[id] == p;
        assert id in a && Live(a, root, id);
      }
    }
    SetEquality(Hosts(a, root), Hosts(b, root));
  }

  // ---------- building ----------

  method AllNodes(items: Items) returns (nodes: seq<TreeNode>)
    ensures Distinct(nodes) && ById(nodes) == RawOf(items)
  {
    nodes := [];
    var left := items.Keys;
    while left != {}
      invariant left <= items.Keys && AllNodesBut(items, nodes, left)
      decreases |left|
    {
      var id := Pick(left);
      ListedStep(items, nodes, left, id);
      nodes := nodes + [TreeNode(id, items[id].parentId, items[id].isDeleted)];
      left := left - {id};
    }
    NodesAreRaw(items, nodes);
  }

  ghost predicate IsNodeOf(items: Items, n: TreeNode) {
    n.id in items && n.parentId == items[n.id].parentId && n.isDeleted == items[n.id].isDeleted
  }

  // `nodes` lists each item outside `left` once.
  ghost predicate AllNodesBut(items: Items, nodes: seq<TreeNode>, left: set<Id>) {
    && Distinct(nodes)
    && (forall i :: 0 <= i < |nodes| ==> IsNodeOf(items, nodes[i]) && nodes[i].id !in left)
    && forall id :: id in items && id !in left ==> exists i :: 0 <= i < |nodes| && nodes[i].id == id
  }

  lemma ListedStep(items: Items, nodes: seq<TreeNode>, left: set<Id>, id: Id)
    requires AllNodesBut(items, nodes, left) && id in left && id in items
    ensures AllNodesBut(items, nodes + [TreeNode(id, items[id].parentId, items[id].isDeleted)], left - {id})
  {
    var after := nodes + [TreeNode(id, items[id].parentId, items[id].isDeleted)];
    assert after[|nodes|].id == id;
    forall z | z in items && z !in left - {id}
      ensures exists i :: 0 <= i < |after| && after[i].id == z
    {
      if z != id {
        var i :| 0 <= i < |nodes| && nodes[i].id == z;
        assert after[i].id == z;
      }
    }
  }

  lemma NodesAreRaw(items: Items, nodes: seq<TreeNode>)
    requires AllNodesBut(items, nodes, {})
    ensures ById(nodes) == RawOf(items)
  {
    forall id
      ensures id in ById(nodes) <==> id in items
    {
    }
  }

  /** Effective parents of the live items. */
  ghost function LiveEdges(items: Items, root: Id): map<Id, Id> {
    map id | id in items && Live(items, root, id) :: EdgesOf(items, root)[id]
  }

  /** The members of `seen` that `edges` puts under `p`. */
  ghost function Group(edges: map<Id, Id>, ranks: map<Id, Rank>, p: Id, seen: set<Id>): set<Sibling> {
    set id | id in edges && id in ranks && id in seen && edges[id] == p :: Sibling(id, ranks[id])
  }

  ghost function Ranks(items: Items): map<Id, Rank> {
    map id | id in items :: items[id].rank
  }

  lemma GroupIsKids(items: Items, root: Id, p: Id)
    ensures Group(LiveEdges(items, root), Ranks(items), p, items.Keys) == Kids(items, root, p)
    ensures p in Hosts(items, root) <==> Kids(items, root, p) != {}
  {
    forall e
      ensures e in Group(LiveEdges(items, root), Ranks(items), p, items.Keys) <==> e in Kids(items, root, p)
    {
      KidsMembers(items, root, p, e);
    }
    if p in Hosts(items, root) {
      var id :| id in items && Live(items, root, id) && EdgesOf(items, root)[id] == p;
      KidsMembers(items, root, p, Sibling(id, items[id].rank));
    }
  }

  ghost predicate NoDuplicates(s: seq<Sibling>) {
    forall i, j :: 0 <= i < j < |s| ==> s[i] != s[j]
  }

  // The lists hold the groups of the nodes seen so far, each member once.
  ghost predicate Grouped(edges: map<Id, Id>, ranks: map<Id, Rank>, seen: set<Id>,
                          children: map<Id, seq<Sibling>>)
  {
    && (forall p :: p in children <==> Group(edges, ranks, p, seen) != {})
    && forall p :: p in children ==>
         Members(children[p]) == Group(edges, ranks, p, seen) && NoDuplicates(children[p])
  }

  lemma GroupStep(edges: map<Id, Id>, ranks: map<Id, Rank>, p: Id, seen: set<Id>, id: Id)
    requires id in ranks
    ensures Group(edges, ranks, p, seen + {id})
         == Group(edges, ranks, p, seen) + if id in edges && edges[id] == p then {Sibling(id, ranks[id])} else {}
  {
  }

  lemma AppendNew(s: seq<Sibling>, x: Sibling)
    requires NoDuplicates(s) && x !in Members(s)
    ensures NoDuplicates(s + [x]) && Members(s + [x]) == Members(s) + {x}
  {
    MembersConcat(s, [x]);
    assert Members([x]) == {x};
    assert forall i :: 0 <= i < |s| ==> s[i] in s;
  }

  /** Seeing one more live item appends it to its parent's list and to no other. */
  lemma GroupedStep(edges: map<Id, Id>, ranks: map<Id, Rank>, seen: set<Id>,
                    children: map<Id, seq<Sibling>>, id: Id)
    requires Grouped(edges, ranks, seen, children) && id in edges && id in ranks && id !in seen
    ensures var s := if edges[id] in children then children[edges[id]] else [];
      Grouped(edges, ranks, seen + {id}, children[edges[id] := s + [Sibling(id, ranks[id])]])
  {
    var s := if edges[id] in children then children[edges[id]] else [];
    var x := Sibling(id, ranks[id]);
    assert x !in Group(edges, ranks, edges[id], seen);
    assert Members(s) == Group(edges, ranks, edges[id], seen);
    AppendNew(s, x);
    var after := children[edges[id] := s + [x]];
    forall p
      ensures p in after <==> Group(edges, ranks, p, seen + {id}) != {}
      ensures p in after ==>
        Members(after[p]) == Group(edges, ranks, p, seen + {id}) && NoDuplicates(after[p])
    {
      GroupStep(edges, ranks, p, seen, id);
      if p == edges[id] {
        assert x in Group(edges, ranks, p, seen + {id});
      }
    }
  }

  lemma GroupedSkip(edges: map<Id, Id>, ranks: map<Id, Rank>, seen: set<Id>,
                    children: map<Id, seq<Sibling>>, id: Id)
    requires Grouped(edges, ranks, seen, children) && id !in edges && id in ranks
    ensures Grouped(edges, ranks, seen + {id}, children)
  {
    forall p
      ensures Group(edges, ranks, p, seen + {id}) == Group(edges, ranks, p, seen)
    {
      GroupStep(edges, ranks, p, seen, id);
    }
  }

  method GroupChildren(nodes: seq<TreeNode>, rootId: Id, t: Tree, ranks: map<Id, Rank>,
                       ghost edges: map<Id, Id>)
    returns (children: map<Id, seq<Sibling>>)
    requires Distinct(nodes) && IdSet(nodes) == ranks.Keys
    requires forall id :: id in ranks ==>
      (id in edges <==> id !in t.deleted && id != rootId)
      && (id in edges ==> id in t.parents && t.parents[id] == edges[id])
    ensures Grouped(edges, ranks, ranks.Keys, children)
  {
    children := map[];
    ghost var seen: set<Id> := {};
    for n := 0 to |nodes|
      invariant Grouped(edges, ranks, seen, children)
      invariant forall i :: 0 <= i < |nodes| ==> (nodes[i].id in seen <==> i < n)
      invariant seen <= ranks.Keys
    {
      var id := nodes[n].id;
      assert id in IdSet(nodes);
      if id in t.deleted || id == rootId {
        GroupedSkip(edges, ranks, seen, children, id);
      } else {
        GroupedStep(edges, ranks, seen, children, id);
        var p := t.parents[id];
        var siblings := if p in children then children[p] else [];
        children := children[p := siblings + [Sibling(id, ranks[id])]];
      }
      seen := seen + {id};
    }
    forall id | id in ranks
      ensures id in seen
    {
      assert id in IdSet(nodes);
      var i :| 0 <= i < |nodes| && nodes[i].id == id;
    }
    assert seen == ranks.Keys;
  }

  method SortGroups(groups: map<Id, seq<Sibling>>) returns (children: map<Id, seq<Sibling>>)
    requires forall p :: p in groups ==> NoDuplicates(groups[p])
    ensures children.Keys == groups.Keys
    ensures forall p :: p in groups ==> children[p] == InOrder(Members(groups[p]))
  {
    children := map[];
    var left := groups.Keys;
    while left != {}
      invariant left <= groups.Keys && children.Keys == groups.Keys - left
      invariant forall p :: p in children ==> children[p] == InOrder(Members(groups[p]))
      decreases |left|
    {
      var p := Pick(left);
      var s := SortSiblings(groups[p]);
      children := children[p := s];
      left := left - {p};
    }
  }

  method BuildIndex(items: Items, rootId: Id) returns (index: Index)
    ensures index == IndexOf(items, rootId)
  {
    var nodes := AllNodes(items);
    var t := DeriveEffectiveTree(nodes, rootId);
    var ranks := map id | id in items :: items[id].rank;
    ghost var edges := LiveEdges(items, rootId);
    TreeOfItems(items, rootId, nodes, t);
    var groups := GroupChildren(nodes, rootId, t, ranks, edges);
    var children := SortGroups(groups);
    ChildrenOfGroups(items, rootId, groups, children);
    index := Index(t.parents, children, t.recovered);
  }

  lemma TreeOfItems(items: Items, root: Id, nodes: seq<TreeNode>, t: Tree)
    requires Distinct(nodes) && ById(nodes) == RawOf(items)
    requires t == Interpret(RawOf(items), root)
    ensures IdSet(nodes) == items.Keys
    ensures forall id :: id in items ==>
      (id in LiveEdges(items, root) <==> id !in t.deleted && id != root)
      && (id in LiveEdges(items, root) ==> id in t.parents && t.parents[id] == LiveEdges(items, root)[id])
  {
    NodesById(nodes);
    EffectiveTreeIsRooted(RawOf(items), root);
  }

  lemma ChildrenOfGroups(items: Items, root: Id, groups: map<Id, seq<Sibling>>, children: map<Id, seq<Sibling>>)
    requires Grouped(LiveEdges(items, root), Ranks(items), items.Keys, groups)
    requires children.Keys == groups.Keys
    requires forall p :: p in groups ==> children[p] == InOrder(Members(groups[p]))
    ensures children == IndexOf(items, root).children
  {
    GroupKeys(items, root, groups);
    forall p | p in children
      ensures children[p] == Children(items, root, p)
    {
      GroupMembers(items, root, groups, p);
    }
    ListsAre(items, root, children);
  }

  lemma GroupMembers(items: Items, root: Id, groups: map<Id, seq<Sibling>>, p: Id)
    requires Grouped(LiveEdges(items, root), Ranks(items), items.Keys, groups) && p in groups
    ensures Members(groups[p]) == Kids(items, root, p)
  {
    GroupIsKids(items, root, p);
  }

  lemma ListsAre(items: Items, root: Id, children: map<Id, seq<Sibling>>)
    requires children.Keys == Hosts(items, root)
    requires forall p :: p in children ==> children[p] == Children(items, root, p)
    ensures children == Lists(items, root)
  {
  }

  lemma GroupKeys(items: Items, root: Id, groups: map<Id, seq<Sibling>>)
    requires Grouped(LiveEdges(items, root), Ranks(items), items.Keys, groups)
    ensures groups.Keys == Hosts(items, root)
  {
    forall p
      ensures p in groups.Keys <==> p in Hosts(items, root)
    {
      GroupIsKids(items, root, p);
    }
    SetEquality(groups.Keys, Hosts(items, root));
  }
}
