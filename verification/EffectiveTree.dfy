/**
 The effective tree of schema v2: raw placements are kept as they were merged
 and one interpretation turns them into a tree under the document root.

 `Interpret` is the meaning of a set of raw placements. `DeriveEffectiveTree`
 computes it in three passes over a list of nodes.
 */
module EffectiveTree {
  import opened Collections
  import opened TreeTheory

  // The parent id that marks the document root; never the id of an item.
  const ROOT_PARENT_SENTINEL: Id := Id(0)

  datatype TreeNode = TreeNode(id: Id, parentId: Id, isDeleted: bool)

  datatype Placement = Placement(parentId: Id, isDeleted: bool)

  type Raw = map<Id, Placement>

  datatype Tree = Tree(parents: map<Id, Id>, recovered: set<Id>, deleted: set<Id>)

  ghost predicate Distinct(nodes: seq<TreeNode>) {
    forall i, j :: 0 <= i < j < |nodes| ==> nodes[i].id != nodes[j].id
  }

  ghost function ById(nodes: seq<TreeNode>): Raw
    requires Distinct(nodes)
  {
    map id | id in IdSet(nodes) :: PlacementIn(nodes, id)
  }

  ghost function PlacementIn(nodes: seq<TreeNode>, id: Id): Placement
    requires id in IdSet(nodes)
  {
    var i :| 0 <= i < |nodes| && nodes[i].id == id;
    Placement(nodes[i].parentId, nodes[i].isDeleted)
  }

  // ---------- meaning ----------

  /** The node's parent is missing, or it claims to be a second root. */
  ghost predicate Orphan(raw: Raw, root: Id, id: Id)
    requires id in raw
  {
    id != root && (raw[id].parentId !in raw || raw[id].parentId == ROOT_PARENT_SENTINEL)
  }

  ghost function Orphans(raw: Raw, root: Id): set<Id> {
    set id | id in raw && Orphan(raw, root, id)
  }

  /** Placements of the nodes below the root once orphans hang under it. */
  ghost function Attached(raw: Raw, root: Id): map<Id, Id> {
    map id | id in raw && id != root :: if Orphan(raw, root, id) then root else raw[id].parentId
  }

  /** The smallest member of every cycle. */
  ghost function CycleBreaks(raw: Raw, root: Id): set<Id> {
    set id | id in raw && id != root && CycleMin(Attached(raw, root), id)
  }

  /** The effective parent of every node below the root. */
  ghost function Edges(raw: Raw, root: Id): map<Id, Id> {
    Cut(Attached(raw, root), CycleBreaks(raw, root), root)
  }

  ghost function Parents(raw: Raw, root: Id): map<Id, Id> {
    map id | id in raw :: if id == root then ROOT_PARENT_SENTINEL else Edges(raw, root)[id]
  }

  ghost function Recovered(raw: Raw, root: Id): set<Id> {
    Orphans(raw, root) + CycleBreaks(raw, root)
  }

  ghost function Tombstones(raw: Raw, root: Id): set<Id> {
    set id | id in raw && id != root && raw[id].isDeleted
  }

  /** `id` or one of its ancestors in `g` is marked. */
  ghost predicate Hidden(g: map<Id, Id>, marked: set<Id>, id: Id) {
    exists a :: a in marked && Above(g, a, id)
  }

  ghost function Deleted(raw: Raw, root: Id): set<Id> {
    set id | id in raw && id != root && Hidden(Edges(raw, root), Tombstones(raw, root), id)
  }

  ghost function Interpret(raw: Raw, root: Id): Tree {
    Tree(Parents(raw, root), Recovered(raw, root), Deleted(raw, root))
  }

  // ---------- what the interpretation guarantees ----------

  lemma AttachedIsClosed(raw: Raw, root: Id)
    ensures ClosedUnder(Attached(raw, root), root)
  {
    var g := Attached(raw, root);
    forall id | id in g
      ensures g[id] in g || g[id] == root
    {
    }
  }

  lemma BreaksCutEveryCycle(raw: Raw, root: Id)
    ensures CutsEveryCycle(Attached(raw, root), CycleBreaks(raw, root))
  {
    var g := Attached(raw, root);
    forall id | OnCycle(g, id)
      ensures exists k: nat :: Up(g, id, k) in CycleBreaks(raw, root)
    {
      var k := CycleHasMin(g, id);
    }
  }

  /** Whatever was merged, every node below the root has a finite walk that ends at the root. */
  lemma EffectiveTreeIsRooted(raw: Raw, root: Id)
    ensures Edges(raw, root).Keys == raw.Keys - {root}
    ensures ClosedUnder(Edges(raw, root), root) && Forest(Edges(raw, root))
    ensures forall id :: id in Edges(raw, root) ==> Above(Edges(raw, root), root, id)
  {
    AttachedIsClosed(raw, root);
    BreaksCutEveryCycle(raw, root);
    CutIsAcyclic(Attached(raw, root), CycleBreaks(raw, root), root);
    var g := Edges(raw, root);
    AcyclicIsForest(g);
    forall id | id in g
      ensures Above(g, root, id)
    {
      var k := ForestReachesRoot(g, root, id);
    }
  }

  /** Raw placements change only for orphans and for the smallest node of a cycle. */
  lemma OnlyFaultsMove(raw: Raw, root: Id, id: Id)
    requires id in raw && id != root
    ensures Parents(raw, root)[id] ==
            if id in Recovered(raw, root) then root else raw[id].parentId
    ensures id in Recovered(raw, root) <==>
              raw[id].parentId !in raw
              || raw[id].parentId == ROOT_PARENT_SENTINEL
              || CycleMin(Attached(raw, root), id)
  {
  }

  /** The parents of the nodes below the root whose parent is a node. */
  ghost function Sound(raw: Raw, root: Id): map<Id, Id> {
    map id | id in raw && id != root && raw[id].parentId in raw && raw[id].parentId != ROOT_PARENT_SENTINEL
      :: raw[id].parentId
  }

  lemma {:induction false} SoundWalk(raw: Raw, root: Id, id: Id, k: nat)
    requires OnCycle(Sound(raw, root), id)
    ensures Up(Attached(raw, root), id, k) == Up(Sound(raw, root), id, k)
  {
    if k > 0 {
      SoundWalk(raw, root, id, k - 1);
      var _ := CycleOrbit(Sound(raw, root), id, k - 1);
    }
  }

  lemma {:induction false} AttachedWalk(raw: Raw, root: Id, id: Id, k: nat)
    requires OnCycle(Attached(raw, root), id)
    ensures Up(Sound(raw, root), id, k) == Up(Attached(raw, root), id, k)
  {
    if k > 0 {
      AttachedWalk(raw, root, id, k - 1);
      var _ := CycleOrbit(Attached(raw, root), id, k - 1);
      var _ := CycleOrbit(Attached(raw, root), id, k);
    }
  }

  /** The attached placements have the cycles of the sound ones. */
  lemma SameCycles(raw: Raw, root: Id, id: Id)
    ensures OnCycle(Attached(raw, root), id) <==> OnCycle(Sound(raw, root), id)
    ensures OnCycle(Sound(raw, root), id) ==> forall k: nat :: Up(Attached(raw, root), id, k) == Up(Sound(raw, root), id, k)
  {
    if OnCycle(Sound(raw, root), id) {
      var p: nat :| p > 0 && Up(Sound(raw, root), id, p) == id;
      forall k: nat
        ensures Up(Attached(raw, root), id, k) == Up(Sound(raw, root), id, k)
      {
        SoundWalk(raw, root, id, k);
      }
      assert Up(Attached(raw, root), id, p) == id;
    } else if OnCycle(Attached(raw, root), id) {
      var p: nat :| p > 0 && Up(Attached(raw, root), id, p) == id;
      AttachedWalk(raw, root, id, p);
      CycleParentIsSound(raw, root, id);
      assert false;
    }
  }

  /**
   A node is recovered when its parent is missing, when it claims to be a second
   root, or when it is the node of the smallest id on a cycle of parents.
   */
  lemma RecoveredMeans(raw: Raw, root: Id, id: Id)
    requires id in raw
    ensures id in Recovered(raw, root) <==>
      && id != root
      && (|| raw[id].parentId !in raw
          || raw[id].parentId == ROOT_PARENT_SENTINEL
          || (OnCycle(Sound(raw, root), id) && forall k: nat :: id.n <= Up(Sound(raw, root), id, k).n))
    ensures id != root ==>
      id in Edges(raw, root) && Edges(raw, root)[id] == if id in Recovered(raw, root) then root else raw[id].parentId
  {
    SameCycles(raw, root, id);
    if id != root {
      OnlyFaultsMove(raw, root, id);
      if OnCycle(Sound(raw, root), id) {
        SameMinimum(Attached(raw, root), Sound(raw, root), id);
      }
    }
  }

  lemma SameMinimum(g: map<Id, Id>, h: map<Id, Id>, id: Id)
    requires OnCycle(g, id) && OnCycle(h, id) && forall k: nat :: Up(g, id, k) == Up(h, id, k)
    ensures CycleMin(g, id) <==> forall k: nat :: id.n <= Up(h, id, k).n
  {
    if forall k: nat :: id.n <= Up(h, id, k).n {
      forall k: nat
        ensures id.n <= Up(g, id, k).n
      {
        assert Up(g, id, k) == Up(h, id, k);
      }
    } else {
      var k: nat :| id.n > Up(h, id, k).n;
      assert Up(g, id, k) == Up(h, id, k);
    }
  }

  lemma CycleParentIsSound(raw: Raw, root: Id, id: Id)
    requires OnCycle(Attached(raw, root), id)
    ensures id in Sound(raw, root)
  {
    var _ := CycleOrbit(Attached(raw, root), id, 1);
    assert Up(Attached(raw, root), id, 0) == id;
    assert Up(Attached(raw, root), id, 1) == Attached(raw, root)[id];
  }

  /** The node `k` steps above `id` is a tombstone below the root. */
  ghost predicate TombstoneAt(raw: Raw, root: Id, id: Id, k: nat) {
    var a := Up(Edges(raw, root), id, k);
    a in raw && a != root && raw[a].isDeleted
  }

  /** A node below the root is deleted when it or some node above it, short of the root, is a tombstone. */
  lemma DeletedMeans(raw: Raw, root: Id, id: Id)
    ensures id in Deleted(raw, root) <==> id in raw && id != root && exists k: nat :: TombstoneAt(raw, root, id, k)
  {
    hide Edges;
    var g := Edges(raw, root);
    if id in Deleted(raw, root) {
      var a :| a in Tombstones(raw, root) && Above(g, a, id);
      var k: nat :| Up(g, id, k) == a;
      assert TombstoneAt(raw, root, id, k);
    } else if id in raw && id != root {
      if k: nat :| TombstoneAt(raw, root, id, k) {
        assert Above(g, Up(g, id, k), id);
        assert false;
      }
    }
  }

  /** Each cycle loses exactly one of its nodes. */
  lemma OneBreakPerCycle(raw: Raw, root: Id, id: Id)
    requires OnCycle(Attached(raw, root), id)
    ensures exists m ::
              && m in CycleBreaks(raw, root) && Above(Attached(raw, root), m, id)
              && forall n :: n in CycleBreaks(raw, root) && Above(Attached(raw, root), n, id) ==> n == m
  {
    var g := Attached(raw, root);
    var k := CycleHasMin(g, id);
    var m := Up(g, id, k);
    assert Above(g, m, id);
    forall n | n in CycleBreaks(raw, root) && Above(g, n, id)
      ensures n == m
    {
      var j: nat :| Up(g, id, j) == n;
      var backM := CycleOrbit(g, id, k);
      UpAdd(g, m, backM, j);
      var backN := CycleOrbit(g, id, j);
      UpAdd(g, n, backN, k);
      assert m.n <= Up(g, m, backM + j).n;
      assert n.n <= Up(g, n, backN + k).n;
    }
  }

  /** The order in which the merged nodes are listed does not matter. */
  lemma OrderIndependent(a: seq<TreeNode>, b: seq<TreeNode>, root: Id)
    requires Distinct(a) && Distinct(b) && multiset(a) == multiset(b)
    ensures Interpret(ById(a), root) == Interpret(ById(b), root)
  {
    forall n
      ensures n in a <==> n in b
    {
      assert n in a <==> n in multiset(a);
      assert n in b <==> n in multiset(b);
    }
    SameMembers(a, b);
    SameMembers(b, a);
    assert ById(a) == ById(b);
  }

  lemma SameMembers(a: seq<TreeNode>, b: seq<TreeNode>)
    requires Distinct(a) && Distinct(b)
    requires forall n :: n in a <==> n in b
    ensures forall id :: id in ById(a) ==> id in ById(b) && ById(b)[id] == ById(a)[id]
  {
    forall id | id in ById(a)
      ensures id in ById(b) && ById(b)[id] == ById(a)[id]
    {
      var i :| 0 <= i < |a| && a[i].id == id;
      assert a[i] in b;
      var j :| 0 <= j < |b| && b[j] == a[i];
    }
  }

  // ---------- hidden nodes ----------

  lemma HiddenStep(g: map<Id, Id>, marked: set<Id>, id: Id)
    requires id in g
    ensures Hidden(g, marked, id) <==> id in marked || Hidden(g, marked, g[id])
  {
    forall a | a in marked
      ensures Above(g, a, id) <==> a == id || Above(g, a, g[id])
    {
      AboveStep(g, a, id);
    }
    if id in marked {
      AboveStep(g, id, id);
    }
  }

  lemma NothingAboveTerminal(g: map<Id, Id>, a: Id, id: Id)
    requires id !in g && Above(g, a, id)
    ensures a == id
  {
    var k: nat :| Up(g, id, k) == a;
    assert Up(g, id, 0) == id;
    UpTerminal(g, id, 0, k);
  }

  lemma RootIsNeverHidden(raw: Raw, root: Id)
    ensures !Hidden(Edges(raw, root), Tombstones(raw, root), root)
  {
    var g := Edges(raw, root);
    forall a | a in Tombstones(raw, root)
      ensures !Above(g, a, root)
    {
      if Above(g, a, root) {
        NothingAboveTerminal(g, a, root);
      }
    }
  }

  /** An item is deleted exactly when it or its effective parent is. */
  lemma DeletedIsInherited(raw: Raw, root: Id, id: Id)
    requires id in raw && id != root
    ensures id in Deleted(raw, root) <==>
              raw[id].isDeleted || Parents(raw, root)[id] in Deleted(raw, root)
  {
    EffectiveTreeIsRooted(raw, root);
    RootIsNeverHidden(raw, root);
    HiddenStep(Edges(raw, root), Tombstones(raw, root), id);
  }

  lemma HiddenTerminal(g: map<Id, Id>, marked: set<Id>, id: Id)
    requires id !in g
    ensures Hidden(g, marked, id) <==> id in marked
  {
    forall a | a in marked && Above(g, a, id)
      ensures a == id
    {
      NothingAboveTerminal(g, a, id);
    }
    assert Up(g, id, 0) == id;
    assert Above(g, id, id);
  }

  /** When neither a moved node nor its new parent is hidden, hiding does not change. */
  lemma {:induction false} HiddenAfterRegraft(g: map<Id, Id>, x: Id, y: Id, marked: set<Id>, id: Id)
    requires Forest(g[x := y]) && Grounded(g[x := y], id)
    requires !Hidden(g, marked, x) && !Hidden(g, marked, y)
    ensures Hidden(g[x := y], marked, id) <==> Hidden(g, marked, id)
    decreases Depth(g[x := y], id)
  {
    var h := g[x := y];
    if id !in h {
      HiddenTerminal(h, marked, id);
      HiddenTerminal(g, marked, id);
    } else {
      HiddenStep(h, marked, id);
      DepthStep(h, id);
      HiddenAfterRegraft(g, x, y, marked, h[id]);
      if id in g {
        HiddenStep(g, marked, id);
      } else {
        HiddenTerminal(g, marked, id);
      }
    }
  }

  // ---------- placements without faults ----------

  /** The raw parent of every node below the root. */
  ghost function RawEdges(raw: Raw, root: Id): map<Id, Id> {
    map id | id in raw && id != root :: raw[id].parentId
  }

  /** The raw placements already form a tree. */
  ghost predicate Faultless(raw: Raw, root: Id) {
    && Forest(RawEdges(raw, root))
    && forall id :: id in raw && id != root ==>
         raw[id].parentId in raw && raw[id].parentId != ROOT_PARENT_SENTINEL
  }

  /** Nothing is recovered exactly when the raw placements are a tree, and then they stand. */
  lemma NothingRecovered(raw: Raw, root: Id)
    ensures Recovered(raw, root) == {} <==> Faultless(raw, root)
    ensures Faultless(raw, root) ==> Edges(raw, root) == RawEdges(raw, root)
  {
    var g := Attached(raw, root);
    if Faultless(raw, root) {
      assert g == RawEdges(raw, root);
      ForestIsAcyclic(g);
      assert Recovered(raw, root) == {};
    }
    if Recovered(raw, root) == {} {
      forall id | id in raw && id != root
        ensures raw[id].parentId in raw && raw[id].parentId != ROOT_PARENT_SENTINEL
      {
        assert id !in Orphans(raw, root);
      }
      assert g == RawEdges(raw, root);
      EffectiveTreeIsRooted(raw, root);
      assert Edges(raw, root) == g;
    }
  }

  // ---------- the three passes ----------

  method DeriveEffectiveTree(nodes: seq<TreeNode>, rootId: Id) returns (t: Tree)
    requires Distinct(nodes)
    ensures t == Interpret(ById(nodes), rootId)
  {
    ghost var raw := ById(nodes);
    NodesById(nodes);
    var parents, recovered := AttachOrphans(nodes, rootId, raw);
    parents, recovered := BreakCycles(nodes, rootId, raw, parents, recovered);
    var deleted := InheritDeletion(nodes, rootId, raw, parents);
    t := Tree(parents, recovered, deleted);
  }

  /** Placements with the root marked by the sentinel and the nodes in `cut` under the root. */
  ghost function Placed(raw: Raw, root: Id, cut: set<Id>): map<Id, Id> {
    map id | id in raw ::
      if id == root then ROOT_PARENT_SENTINEL
      else if id in cut then root
      else Attached(raw, root)[id]
  }

  function IdSet(nodes: seq<TreeNode>): set<Id> {
    set i | 0 <= i < |nodes| :: nodes[i].id
  }

  // `nodes` lists the placements of `raw`.
  ghost predicate Lists(nodes: seq<TreeNode>, raw: Raw) {
    && IdSet(nodes) == raw.Keys
    && forall i :: 0 <= i < |nodes| ==>
         nodes[i].id in raw && raw[nodes[i].id] == Placement(nodes[i].parentId, nodes[i].isDeleted)
  }

  lemma NodesById(nodes: seq<TreeNode>)
    requires Distinct(nodes)
    ensures Lists(nodes, ById(nodes))
  {
  }

  lemma EveryIdIsListed(nodes: seq<TreeNode>, raw: Raw, seen: set<Id>)
    requires Lists(nodes, raw) && forall i :: 0 <= i < |nodes| ==> nodes[i].id in seen
    ensures raw.Keys <= seen
  {
    forall id | id in raw
      ensures id in seen
    {
      assert id in IdSet(nodes);
      var i :| 0 <= i < |nodes| && nodes[i].id == id;
    }
  }

  function RawParents(nodes: seq<TreeNode>, rootId: Id, ghost raw: Raw): (m: map<Id, Id>)
    requires Lists(nodes, raw)
    ensures m == Reattached(raw, rootId, {})
  {
    var m := Indexed(nodes, (n: TreeNode) => n.id,
                     (n: TreeNode) => if n.id == rootId then ROOT_PARENT_SENTINEL else n.parentId);
    assert m.Keys == IdSet(nodes);
    m
  }

  function Flags(nodes: seq<TreeNode>, ghost raw: Raw): (m: map<Id, bool>)
    requires Lists(nodes, raw)
    ensures m.Keys == raw.Keys
    ensures forall id :: id in m ==> m[id] == raw[id].isDeleted
  {
    var m := Indexed(nodes, (n: TreeNode) => n.id, (n: TreeNode) => n.isDeleted);
    assert m.Keys == IdSet(nodes);
    m
  }

  ghost function OrphansAmong(raw: Raw, root: Id, seen: set<Id>): set<Id> {
    set id | id in seen && id in raw && Orphan(raw, root, id)
  }

  ghost function Reattached(raw: Raw, root: Id, cut: set<Id>): map<Id, Id> {
    map id | id in raw ::
      if id == root then ROOT_PARENT_SENTINEL
      else if id in cut then root
      else raw[id].parentId
  }

  lemma OrphansStep(raw: Raw, root: Id, seen: set<Id>, id: Id)
    requires id in raw
    ensures OrphansAmong(raw, root, seen + {id})
         == OrphansAmong(raw, root, seen) + if Orphan(raw, root, id) then {id} else {}
  {
  }

  lemma ReattachedStep(raw: Raw, root: Id, cut: set<Id>, id: Id)
    requires id in raw && id != root
    ensures Reattached(raw, root, cut)[id := root] == Reattached(raw, root, cut + {id})
  {
  }

  method AttachOrphans(nodes: seq<TreeNode>, rootId: Id, ghost raw: Raw)
    returns (parents: map<Id, Id>, recovered: set<Id>)
    requires Lists(nodes, raw)
    ensures parents == Placed(raw, rootId, {})
    ensures recovered == Orphans(raw, rootId)
  {
    hide RawParents;
    var ids := IdSet(nodes);
    parents := RawParents(nodes, rootId, raw);
    recovered := {};
    ghost var seen: set<Id> := {};
    for n := 0 to |nodes|
      invariant forall i :: 0 <= i < n ==> nodes[i].id in seen
      invariant recovered == OrphansAmong(raw, rootId, seen)
      invariant parents == Reattached(raw, rootId, recovered)
    {
      var node := nodes[n];
      assert node.id in raw && raw[node.id] == Placement(node.parentId, node.isDeleted);
      OrphansStep(raw, rootId, seen, node.id);
      seen := seen + {node.id};
      if node.id != rootId {
        if node.parentId !in ids || node.parentId == ROOT_PARENT_SENTINEL {
          ReattachedStep(raw, rootId, recovered, node.id);
          parents := parents[node.id := rootId];
          recovered := recovered + {node.id};
        }
      }
    }
    EveryIdIsListed(nodes, raw, seen);
    assert recovered == Orphans(raw, rootId);
    assert parents == Placed(raw, rootId, {});
  }

  // Walks from members of `done` stay in `done`.
  ghost predicate ClosedSet(g: map<Id, Id>, done: set<Id>) {
    forall id :: id in done && id in g ==> g[id] in done
  }

  lemma {:induction false} ClosedWalk(g: map<Id, Id>, done: set<Id>, id: Id, k: nat)
    requires ClosedSet(g, done) && id in done
    ensures Up(g, id, k) in done
  {
    if k > 0 {
      ClosedWalk(g, done, id, k - 1);
    }
  }

  /** A walk that ends in a settled node met no cycle on the way. */
  lemma NoCycleBeforeSettled(g: map<Id, Id>, done: set<Id>, start: Id, n: nat, i: nat)
    requires ClosedSet(g, done) && i < n
    requires Up(g, start, n) in done && Up(g, start, i) !in done
    ensures !OnCycle(g, Up(g, start, i))
  {
    var x := Up(g, start, i);
    if OnCycle(g, x) {
      UpAdd(g, start, i, n - i);
      var back := CycleOrbit(g, x, n - i);
      ClosedWalk(g, done, Up(g, start, n), back);
    }
  }

  function Least(s: seq<Id>): (m: Id)
    requires s != []
    ensures m in s && forall x :: x in s ==> m.n <= x.n
  {
    if |s| == 1 then s[0]
    else
      var rest := Least(s[1..]);
      assert forall x :: x in s ==> x == s[0] || x in s[1..];
      if s[0].n <= rest.n then s[0] else rest
  }

  // `path` lists the nodes met on the way up from `start`, each once.
  ghost predicate PathOf(g: map<Id, Id>, start: Id, path: seq<Id>) {
    && (forall i: nat :: i < |path| ==> path[i] == Up(g, start, i) && path[i] in g)
    && (forall i, j :: 0 <= i < j < |path| ==> path[i] != path[j])
  }

  lemma PathExtends(g: map<Id, Id>, start: Id, path: seq<Id>)
    requires PathOf(g, start, path)
    requires Up(g, start, |path|) in g && Up(g, start, |path|) !in path
    ensures PathOf(g, start, path + [Up(g, start, |path|)])
  {
  }

  // The walk comes back to position `p` of `path`.
  ghost predicate LoopAt(g: map<Id, Id>, start: Id, path: seq<Id>, p: nat) {
    PathOf(g, start, path) && p < |path| && Up(g, start, |path|) == path[p]
  }

  /** From `path[p]` on, the walk only meets the nodes of the loop. */
  lemma {:induction false} OrbitStays(g: map<Id, Id>, start: Id, path: seq<Id>, p: nat, m: nat)
    requires LoopAt(g, start, path, p) && p <= m
    ensures Up(g, start, m) in path[p..]
  {
    var n := |path|;
    if m >= n {
      UpAdd(g, start, n, m - n);
      UpAdd(g, start, p, m - n);
      OrbitStays(g, start, path, p, m - (n - p));
    } else {
      assert path[p..][m - p] == path[m];
    }
  }

  lemma LoopIsCycle(g: map<Id, Id>, start: Id, path: seq<Id>, p: nat, i: nat)
    requires LoopAt(g, start, path, p) && p <= i < |path|
    ensures OnCycle(g, path[i])
  {
    UpAdd(g, start, p, |path| - p);
    assert Up(g, path[p], |path| - p) == path[p];
    var _ := CycleOrbit(g, path[p], i - p);
    UpAdd(g, start, p, i - p);
  }

  lemma TailIsNotCyclic(g: map<Id, Id>, start: Id, path: seq<Id>, p: nat, i: nat)
    requires LoopAt(g, start, path, p) && i < p
    ensures !OnCycle(g, path[i])
  {
    if OnCycle(g, path[i]) {
      UpAdd(g, start, i, p - i);
      var back := CycleOrbit(g, path[i], p - i);
      UpAdd(g, start, p, back);
      OrbitStays(g, start, path, p, p + back);
      assert false;
    }
  }

  lemma LoopMin(g: map<Id, Id>, start: Id, path: seq<Id>, p: nat, f: nat)
    requires LoopAt(g, start, path, p) && p <= f < |path|
    requires forall x :: x in path[p..] ==> path[f].n <= x.n
    ensures CycleMin(g, path[f])
  {
    LoopIsCycle(g, start, path, p, f);
    forall k: nat
      ensures path[f].n <= Up(g, path[f], k).n
    {
      UpAdd(g, start, f, k);
      OrbitStays(g, start, path, p, f + k);
    }
  }

  lemma OnlyLoopMin(g: map<Id, Id>, start: Id, path: seq<Id>, p: nat, f: nat, i: nat)
    requires LoopAt(g, start, path, p) && p <= f < |path| && i < |path|
    requires forall x :: x in path[p..] ==> path[f].n <= x.n
    requires CycleMin(g, path[i])
    ensures i == f
  {
    if i < p {
      TailIsNotCyclic(g, start, path, p, i);
      assert false;
    }
    assert path[p..][i - p] == path[i];
    assert path[i] in path[p..];
    assert path[f].n <= path[i].n;
    // From path[i] the walk reaches path[f] and so path[i] <= path[f].
    UpAdd(g, start, p, i - p);
    UpAdd(g, start, p, f - p);
    UpAdd(g, start, p, |path| - p);
    assert Up(g, path[p], |path| - p) == path[p];
    var back := CycleOrbit(g, path[p], i - p);
    UpAdd(g, path[i], back, f - p);
    assert Up(g, path[p], f - p) == path[f];
    assert Up(g, path[i], back + (f - p)) == path[f];
    assert path[i].n <= Up(g, path[i], back + (f - p)).n;
  }

  lemma {:induction false} PathFits(path: seq<Id>, within: set<Id>)
    requires forall i, j :: 0 <= i < j < |path| ==> path[i] != path[j]
    requires forall x :: x in path ==> x in within
    ensures |path| <= |within|
  {
    if path != [] {
      var last := |path| - 1;
      assert path[last] in path;
      assert |within - {path[last]}| == |within| - 1;
      PathFits(path[..last], within - {path[last]});
    }
  }

  /** Climb from `start` until a settled node or a node of this walk comes up. */
  method Walk(ghost g: map<Id, Id>, rootId: Id, parents: map<Id, Id>, done: set<Id>, start: Id)
    returns (path: seq<Id>, loop: int)
    requires ClosedUnder(g, rootId) && rootId in done && (start in g || start == rootId)
    requires forall id :: id in g && id !in done ==> id in parents && parents[id] == g[id]
    ensures PathOf(g, start, path) && forall x :: x in path ==> x !in done
    ensures start in done || start in path
    ensures -1 <= loop < |path|
    ensures if loop < 0 then Up(g, start, |path|) in done else LoopAt(g, start, path, loop)
  {
    path := [];
    var positions: map<Id, nat> := map[];
    var id := start;
    while id != rootId && id !in done
      invariant id == Up(g, start, |path|) && (id in g || id == rootId)
      invariant PathOf(g, start, path) && forall x :: x in path ==> x !in done
      invariant forall x :: x in positions <==> x in path
      invariant forall x :: x in positions ==> positions[x] < |path| && path[positions[x]] == x
      invariant path == [] ==> id == start
      invariant path != [] ==> path[0] == start
      decreases |g| - |path|
    {
      if id in positions {
        return path, positions[id];
      }
      PathExtends(g, start, path);
      positions := positions[id := |path|];
      path := path + [id];
      PathFits(path, g.Keys);
      id := if id in parents then parents[id] else rootId;
    }
    loop := -1;
  }

  // What has been settled so far: a closed set of nodes whose cycles are broken.
  ghost predicate Settled(raw: Raw, root: Id, done: set<Id>, parents: map<Id, Id>, recovered: set<Id>) {
    && root in done && done <= raw.Keys + {root} && ClosedSet(Attached(raw, root), done)
    && parents == Placed(raw, root, CycleBreaks(raw, root) * done)
    && recovered == Orphans(raw, root) + CycleBreaks(raw, root) * done
  }

  lemma UnsettledIsRaw(raw: Raw, root: Id, done: set<Id>, parents: map<Id, Id>, recovered: set<Id>)
    requires Settled(raw, root, done, parents, recovered)
    ensures forall id :: id in Attached(raw, root) && id !in done ==>
      id in parents && parents[id] == Attached(raw, root)[id]
  {
  }

  lemma PathCloses(g: map<Id, Id>, done: set<Id>, start: Id, path: seq<Id>, walked: set<Id>)
    requires ClosedSet(g, done) && PathOf(g, start, path)
    requires walked == Members(path)
    requires Up(g, start, |path|) in done + walked
    ensures ClosedSet(g, done + walked)
  {
    forall id | id in done + walked && id in g
      ensures g[id] in done + walked
    {
      if id !in done {
        var i: nat :| i < |path| && path[i] == id;
        assert Up(g, start, i + 1) == g[id];
      }
    }
  }

  /** A finished walk holds no cycle minimum, or just the one that was freed. */
  lemma PathBreaks(raw: Raw, root: Id, done: set<Id>, start: Id, path: seq<Id>, loop: int, walked: set<Id>)
    requires var g := Attached(raw, root);
      && ClosedSet(g, done) && PathOf(g, start, path) && forall x :: x in path ==> x !in done
    requires walked == Members(path)
    requires -1 <= loop < |path|
    requires var g := Attached(raw, root);
      if loop < 0 then Up(g, start, |path|) in done else LoopAt(g, start, path, loop)
    ensures CycleBreaks(raw, root) * walked == if loop < 0 then {} else {Least(path[loop..])}
  {
    var g := Attached(raw, root);
    if loop < 0 {
      forall i: nat | i < |path|
        ensures !CycleMin(g, path[i])
      {
        NoCycleBeforeSettled(g, done, start, |path|, i);
      }
    } else {
      var m := Least(path[loop..]);
      var j :| 0 <= j < |path[loop..]| && path[loop..][j] == m;
      var f := loop + j;
      assert path[f] == m;
      LoopMin(g, start, path, loop, f);
      forall i: nat | i < |path| && CycleMin(g, path[i])
        ensures path[i] == m
      {
        OnlyLoopMin(g, start, path, loop, f, i);
      }
    }
  }

  method BreakCycles(nodes: seq<TreeNode>, rootId: Id, ghost raw: Raw,
                     parents0: map<Id, Id>, recovered0: set<Id>)
    returns (parents: map<Id, Id>, recovered: set<Id>)
    requires Lists(nodes, raw)
    requires parents0 == Placed(raw, rootId, {})
    requires recovered0 == Orphans(raw, rootId)
    ensures parents == Parents(raw, rootId)
    ensures recovered == Recovered(raw, rootId)
  {
    parents, recovered := parents0, recovered0;
    var done := {rootId};
    assert CycleBreaks(raw, rootId) * done == {};
    for n := 0 to |nodes|
      invariant Settled(raw, rootId, done, parents, recovered)
      invariant forall i :: 0 <= i < n ==> nodes[i].id in done
    {
      parents, recovered, done := SettleFrom(raw, rootId, nodes[n].id, parents, recovered, done);
    }
    EveryIdIsListed(nodes, raw, done);
    assert CycleBreaks(raw, rootId) * done == CycleBreaks(raw, rootId);
    assert parents == Parents(raw, rootId);
  }

  /** One walk: free the smallest node of the loop it runs into, if any, and settle its nodes. */
  method SettleFrom(ghost raw: Raw, rootId: Id, start: Id,
                    parents0: map<Id, Id>, recovered0: set<Id>, done0: set<Id>)
    returns (parents: map<Id, Id>, recovered: set<Id>, done: set<Id>)
    requires start in raw && Settled(raw, rootId, done0, parents0, recovered0)
    ensures Settled(raw, rootId, done, parents, recovered)
    ensures done0 <= done && start in done
  {
    parents, recovered := parents0, recovered0;
    AttachedIsClosed(raw, rootId);
    UnsettledIsRaw(raw, rootId, done0, parents0, recovered0);
    var path, loop := Walk(Attached(raw, rootId), rootId, parents0, done0, start);
    var walked := Members(path);
    if loop >= 0 {
      var freed := Least(path[loop..]);
      PlacedUpdate(raw, rootId, CycleBreaks(raw, rootId) * done0, freed);
      parents := parents[freed := rootId];
      recovered := recovered + {freed};
    }
    WalkSettled(raw, rootId, done0, start, path, loop, walked, parents, recovered);
    done := done0 + walked;
  }

  lemma PlacedUpdate(raw: Raw, root: Id, cut: set<Id>, id: Id)
    requires id in raw && id != root
    ensures Placed(raw, root, cut)[id := root] == Placed(raw, root, cut + {id})
  {
  }

  /** Adding a finished walk keeps the settled part settled. */
  lemma WalkSettled(raw: Raw, root: Id, done: set<Id>, start: Id, path: seq<Id>, loop: int,
                    walked: set<Id>, parents: map<Id, Id>, recovered: set<Id>)
    requires var g := Attached(raw, root);
      && PathOf(g, start, path) && (forall x :: x in path ==> x !in done)
      && -1 <= loop < |path|
      && if loop < 0 then Up(g, start, |path|) in done else LoopAt(g, start, path, loop)
    requires walked == Members(path)
    requires root in done && done <= raw.Keys + {root} && ClosedSet(Attached(raw, root), done)
    requires var freed := if loop < 0 then {} else {Least(path[loop..])};
      && var broken := CycleBreaks(raw, root) * done + freed;
      && parents == Placed(raw, root, broken)
      && recovered == Orphans(raw, root) + broken
    ensures Settled(raw, root, done + walked, parents, recovered)
  {
    PathBreaks(raw, root, done, start, path, loop, walked);
    PathCloses(Attached(raw, root), done, start, path, walked);
    assert CycleBreaks(raw, root) * (done + walked)
        == CycleBreaks(raw, root) * done + CycleBreaks(raw, root) * walked;
  }

  // `path` climbs from `start` in the forest `g` and continues at `top`.
  ghost predicate ClimbTo(g: map<Id, Id>, start: Id, path: seq<Id>, top: Id) {
    && (forall i :: 0 <= i < |path| ==> path[i] in g)
    && (forall i :: 0 <= i < |path| - 1 ==> g[path[i]] == path[i + 1])
    && (if path == [] then top == start else path[0] == start && g[path[|path| - 1]] == top)
  }

  method Climb(ghost g: map<Id, Id>, rootId: Id, parents: map<Id, Id>, known: set<Id>, start: Id)
    returns (path: seq<Id>, top: Id)
    requires ClosedUnder(g, rootId) && Forest(g) && rootId in known
    requires start in g || start == rootId
    requires forall id :: id in g ==> id in parents && parents[id] == g[id]
    ensures ClimbTo(g, start, path, top) && top in known
  {
    path, top := [], start;
    while top != rootId && top !in known
      invariant ClimbTo(g, start, path, top) && (top in g || top == rootId)
      decreases if top in g then Depth(g, top) else 0
    {
      DepthStep(g, top);
      assert Depth(g, top) > 0;
      path := path + [top];
      top := if top in parents then parents[top] else rootId;
    }
  }

  method InheritDeletion(nodes: seq<TreeNode>, rootId: Id, ghost raw: Raw, parents: map<Id, Id>)
    returns (deleted: set<Id>)
    requires Lists(nodes, raw)
    requires parents == Parents(raw, rootId)
    ensures deleted == Deleted(raw, rootId)
  {
    hide Hidden, Forest, ClosedUnder, ClimbTo, Edges, Flags;
    ghost var g := Edges(raw, rootId);
    ghost var marked := Tombstones(raw, rootId);
    RootIsNeverHidden(raw, rootId);
    var flagged := Flags(nodes, raw);
    deleted := {};
    var known := {rootId};
    for n := 0 to |nodes|
      invariant rootId in known && known <= raw.Keys + {rootId}
      invariant deleted == HiddenAmong(g, marked, known)
      invariant forall i :: 0 <= i < n ==> nodes[i].id in known
    {
      known, deleted := Learn(raw, rootId, parents, flagged, nodes[n].id, known, deleted);
    }
    EveryIdIsListed(nodes, raw, known);
    AllAreKnown(raw, rootId, known);
  }

  /** One climb from `start`, unless its hidden state is known already. */
  method Learn(ghost raw: Raw, rootId: Id, parents: map<Id, Id>, flagged: map<Id, bool>, start: Id,
               known0: set<Id>, deleted0: set<Id>)
    returns (known: set<Id>, deleted: set<Id>)
    requires parents == Parents(raw, rootId) && start in raw
    requires flagged.Keys == raw.Keys && forall id :: id in flagged ==> flagged[id] == raw[id].isDeleted
    requires rootId in known0 && known0 <= raw.Keys + {rootId}
    requires deleted0 == HiddenAmong(Edges(raw, rootId), Tombstones(raw, rootId), known0)
    ensures known0 <= known <= raw.Keys + {rootId} && start in known
    ensures deleted == HiddenAmong(Edges(raw, rootId), Tombstones(raw, rootId), known)
  {
    hide Hidden, HiddenAmong;
    known, deleted := known0, deleted0;
    if start !in known {
      EffectiveTreeIsRooted(raw, rootId);
      var path, top := Climb(Edges(raw, rootId), rootId, parents, known, start);
      known, deleted := MarkDown(Edges(raw, rootId), Tombstones(raw, rootId), flagged, path, start, top, known, deleted);
    }
  }

  lemma AllAreKnown(raw: Raw, root: Id, known: set<Id>)
    requires raw.Keys <= known <= raw.Keys + {root}
    requires !Hidden(Edges(raw, root), Tombstones(raw, root), root)
    ensures HiddenAmong(Edges(raw, root), Tombstones(raw, root), known) == Deleted(raw, root)
  {
    hide Hidden, Edges;
  }

  ghost function HiddenAmong(g: map<Id, Id>, marked: set<Id>, known: set<Id>): set<Id> {
    set id | id in known && Hidden(g, marked, id)
  }

  /** Pass the hidden state of `top` down along the climbed path. */
  method MarkDown(ghost g: map<Id, Id>, ghost marked: set<Id>, flagged: map<Id, bool>,
                  path: seq<Id>, ghost start: Id, top: Id, known0: set<Id>, deleted0: set<Id>)
    returns (known: set<Id>, deleted: set<Id>)
    requires ClimbTo(g, start, path, top) && top in known0
    requires forall id :: id in g ==> (id in marked <==> id in flagged && flagged[id])
    requires deleted0 == HiddenAmong(g, marked, known0)
    ensures known0 <= known <= known0 + g.Keys && start in known
    ensures deleted == HiddenAmong(g, marked, known)
  {
    known, deleted := known0, deleted0;
    var hidden := top in deleted;
    var i := |path| - 1;
    ghost var above := top;
    while i >= 0
      invariant -1 <= i < |path|
      invariant above == if i + 1 < |path| then path[i + 1] else top
      invariant hidden == Hidden(g, marked, above) && above in known
      invariant known0 <= known <= known0 + g.Keys
      invariant deleted == HiddenAmong(g, marked, known)
    {
      var child := path[i];
      assert child in g && g[child] == above;
      HiddenStep(g, marked, child);
      hidden := hidden || (child in flagged && flagged[child]);
      known := known + {child};
      if hidden {
        deleted := deleted + {child};
      }
      above := child;
      i := i - 1;
    }
  }
}
