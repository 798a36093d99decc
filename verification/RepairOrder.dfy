/**
 Does cycle repair depend on the order in which the merged nodes are listed? It
 does exactly when a cycle has two youngest moves, or there are two roots.
 */
module RepairOrder {
  import opened Collections
  import opened TreeTheory
  import EffectiveTree
  import opened CycleRepair

  /** The same nodes in some order. */
  ghost predicate Listing(a: seq<CycleNode>, nodes: seq<CycleNode>) {
    DistinctNodes(a) && Rearranged(a, nodes)
  }

  ghost predicate Rearranged(a: seq<CycleNode>, nodes: seq<CycleNode>) {
    multiset(a) == multiset(nodes)
  }

  ghost predicate SameCycle(byId: Nodes, a: Id, b: Id) {
    OnCycle(Graph(byId), a) && Above(Graph(byId), b, a)
  }

  /** No member of its cycle moved later. */
  ghost predicate Youngest(byId: Nodes, a: Id) {
    forall j: nat :: !EarlierThan(byId, a, Up(Graph(byId), a, j))
  }

  /** No cycle has two members that carry its greatest stamp. */
  ghost predicate OneYoungest(byId: Nodes) {
    forall a, b :: SameCycle(byId, a, b) && Youngest(byId, a) && Youngest(byId, b) ==> a == b
  }

  ghost predicate HasRoot(byId: Nodes) {
    exists r :: IsRootNode(byId, r)
  }

  ghost predicate OneRoot(byId: Nodes) {
    forall r, q :: IsRootNode(byId, r) && IsRootNode(byId, q) ==> r == q
  }

  /** Nothing is left to the order of the listing. */
  ghost predicate NoChoice(byId: Nodes) {
    Acyclic(Graph(byId)) || !HasRoot(byId) || (OneRoot(byId) && OneYoungest(byId))
  }

  // ---------- every cycle has an entry and frees one member ----------

  lemma LeastLeading(g: map<Id, Id>, nodes: seq<CycleNode>, id: Id, m: nat) returns (n: nat)
    requires m < |nodes| && Above(g, id, nodes[m].id)
    ensures n <= m && Above(g, id, nodes[n].id)
    ensures forall i :: 0 <= i < n ==> !Above(g, id, nodes[i].id)
  {
    n := 0;
    while !Above(g, id, nodes[n].id)
      invariant n <= m && forall i :: 0 <= i < n ==> !Above(g, id, nodes[i].id)
      decreases m - n
    {
      n := n + 1;
    }
  }

  lemma FirstOnCycle(g: map<Id, Id>, s: Id, id: Id) returns (e: Id)
    requires OnCycle(g, id) && Above(g, id, s)
    ensures MeetsCycleAt(g, s, e) && Above(g, id, e)
  {
    var n: nat :| Up(g, s, n) == id;
    var k: nat := 0;
    while !OnCycle(g, Up(g, s, k))
      invariant k <= n && forall j: nat :: j < k ==> !OnCycle(g, Up(g, s, j))
      decreases n - k
    {
      k := k + 1;
    }
    e := Up(g, s, k);
    UpAdd(g, s, k, n - k);
  }

  lemma EntryExists(nodes: seq<CycleNode>, id: Id) returns (n: nat, e: Id)
    requires DistinctNodes(nodes) && OnCycle(Graph(NodesById(nodes)), id)
    ensures Entry(Graph(NodesById(nodes)), nodes, n, e) && Above(Graph(NodesById(nodes)), id, e)
  {
    hide NodesById;
    var g := Graph(NodesById(nodes));
    var m :| 0 <= m < |nodes| && nodes[m].id == id;
    assert Up(g, id, 0) == id;
    n := LeastLeading(g, nodes, id, m);
    e := FirstOnCycle(g, nodes[n].id, id);
    forall i | 0 <= i < n
      ensures !Above(g, e, nodes[i].id)
    {
      if Above(g, e, nodes[i].id) {
        AboveTransitive(g, id, e, nodes[i].id);
        assert false;
      }
    }
  }

  lemma OnCycleInNodes(byId: Nodes, e: Id, j: nat)
    requires OnCycle(Graph(byId), e)
    ensures Up(Graph(byId), e, j) in byId
  {
    var _ := CycleOrbit(Graph(byId), e, j);
  }

  /** Among the first `n` members from `e` on, one is later than all before and not earlier than any. */
  lemma {:induction false} FirstLatest(byId: Nodes, e: Id, n: nat) returns (k: nat)
    requires n > 0 && OnCycle(Graph(byId), e)
    ensures k < n && forall j: nat :: j < k ==> EarlierThan(byId, Up(Graph(byId), e, j), Up(Graph(byId), e, k))
    ensures forall j: nat :: j < n ==> !EarlierThan(byId, Up(Graph(byId), e, k), Up(Graph(byId), e, j))
  {
    k := 0;
    if n > 1 {
      k := FirstLatest(byId, e, n - 1);
      forall j: nat
        ensures Up(Graph(byId), e, j) in byId
      {
        OnCycleInNodes(byId, e, j);
      }
      hide Up;
      if EarlierThan(byId, Up(Graph(byId), e, k), Up(Graph(byId), e, n - 1)) {
        k := n - 1;
      }
    }
  }

  lemma SomeoneIsFreed(nodes: seq<CycleNode>, id: Id) returns (x: Id)
    requires DistinctNodes(nodes) && OnCycle(Graph(NodesById(nodes)), id)
    ensures x in NodesById(nodes) && FreedIn(nodes, x)
  {
    hide NodesById;
    var byId := NodesById(nodes);
    var g := Graph(byId);
    var n, e := EntryExists(nodes, id);
    EntryIsCyclic(g, nodes, n, e);
    var p: nat :| p > 0 && Up(g, e, p) == e;
    var k := FirstLatest(byId, e, p);
    x := Up(g, e, k);
    OnCycleInNodes(byId, e, k);
    forall j: nat
      ensures !EarlierThan(byId, x, Up(g, e, j))
    {
      UpModulo(g, e, p, j);
      assert !EarlierThan(byId, x, Up(g, e, j % p));
    }
    assert FirstYoungestFrom(byId, e, k, x);
  }

  // ---------- a unique youngest move is freed in every listing ----------

  lemma FreedIsYoungest(nodes: seq<CycleNode>, id: Id)
    requires DistinctNodes(nodes) && FreedIn(nodes, id)
    ensures OnCycle(Graph(NodesById(nodes)), id) && Youngest(NodesById(nodes), id)
  {
    hide NodesById;
    var byId := NodesById(nodes);
    var g := Graph(byId);
    var n, e, k: nat :| Entry(g, nodes, n, e) && FirstYoungestFrom(byId, e, k, id);
    EntryIsCyclic(g, nodes, n, e);
    var _ := CycleOrbit(g, e, k);
    forall j: nat
      ensures !EarlierThan(byId, id, Up(g, id, j))
    {
      UpAdd(g, e, k, j);
    }
  }

  /** Stamps are totally ordered, so a member that is not earlier than a youngest one is a youngest one. */
  lemma NotEarlierIsYoungest(byId: Nodes, id: Id, z: Id)
    requires SameCycle(byId, id, z) && Youngest(byId, id) && !EarlierThan(byId, z, id)
    ensures Youngest(byId, z)
  {
    var g := Graph(byId);
    var k: nat :| Up(g, id, k) == z;
    OnCycleInNodes(byId, id, k);
    assert !EarlierThan(byId, id, z);
    assert byId[z].hlc == byId[id].hlc;
    forall j: nat
      ensures !EarlierThan(byId, z, Up(g, z, j))
    {
      UpAdd(g, id, k, j);
      assert !EarlierThan(byId, id, Up(g, id, k + j));
    }
  }

  lemma UniqueYoungestIsFreed(nodes: seq<CycleNode>, id: Id)
    requires DistinctNodes(nodes) && OneYoungest(NodesById(nodes))
    requires OnCycle(Graph(NodesById(nodes)), id) && Youngest(NodesById(nodes), id)
    ensures FreedIn(nodes, id)
  {
    hide NodesById;
    var byId := NodesById(nodes);
    var g := Graph(byId);
    var n, e := EntryExists(nodes, id);
    var k := FirstMeeting(g, id, e);
    EntryIsCyclic(g, nodes, n, e);
    var back := CycleOrbit(g, e, k);
    forall j: nat
      ensures SameCycle(byId, id, Up(g, e, j)) && !EarlierThan(byId, id, Up(g, e, j))
    {
      UpAdd(g, id, back, j);
    }
    forall j: nat | j < k
      ensures EarlierThan(byId, Up(g, e, j), id)
    {
      var z := Up(g, e, j);
      if !EarlierThan(byId, z, id) {
        NotEarlierIsYoungest(byId, id, z);
        assert false;
      }
    }
    assert FirstYoungestFrom(byId, e, k, id);
  }

  // ---------- with two of them the one listed first is freed ----------

  lemma EntryIsFreed(nodes: seq<CycleNode>, m: int, a: Id, b: Id)
    requires DistinctNodes(nodes) && Entry(Graph(NodesById(nodes)), nodes, m, a) && a != b
    requires SameCycle(NodesById(nodes), a, b) && Youngest(NodesById(nodes), a)
    ensures FreedIn(nodes, a) && !FreedIn(nodes, b)
  {
    hide NodesById;
    var byId := NodesById(nodes);
    var g := Graph(byId);
    assert Up(g, a, 0) == a;
    assert FirstYoungestFrom(byId, a, 0, a);
    if FreedIn(nodes, b) {
      var n, e, k: nat :| Entry(g, nodes, n, e) && FirstYoungestFrom(byId, e, k, b);
      EntryIsCyclic(g, nodes, n, e);
      var back := CycleOrbit(g, e, k);
      assert Above(g, e, b);
      AboveTransitive(g, e, b, a);
      EntryUnique(g, nodes, m, a, n, e);
      assert false;
    }
  }

  lemma FirstIsEntry(nodes: seq<CycleNode>, a: Id)
    requires DistinctNodes(nodes) && nodes != [] && nodes[0].id == a && OnCycle(Graph(NodesById(nodes)), a)
    ensures Entry(Graph(NodesById(nodes)), nodes, 0, a)
  {
    assert Up(Graph(NodesById(nodes)), a, 0) == a;
  }

  function ListedFirst(nodes: seq<CycleNode>, k: nat): seq<CycleNode>
    requires k < |nodes|
  {
    [nodes[k]] + nodes[..k] + nodes[k + 1..]
  }

  lemma ListedFirstIsListing(nodes: seq<CycleNode>, k: nat)
    requires DistinctNodes(nodes) && k < |nodes|
    ensures Listing(ListedFirst(nodes, k), nodes)
  {
    assert nodes == nodes[..k] + [nodes[k]] + nodes[k + 1..];
    var a := ListedFirst(nodes, k);
    forall i | 0 <= i < |a|
      ensures a[i] == if i == 0 then nodes[k] else if i <= k then nodes[i - 1] else nodes[i]
    {
    }
  }

  lemma WithFirst(nodes: seq<CycleNode>, id: Id) returns (a: seq<CycleNode>)
    requires DistinctNodes(nodes) && id in NodesById(nodes)
    ensures Listing(a, nodes) && a != [] && a[0].id == id
  {
    var i :| 0 <= i < |nodes| && nodes[i].id == id;
    a := ListedFirst(nodes, i);
    ListedFirstIsListing(nodes, i);
  }

  lemma ListingMembers(a: seq<CycleNode>, b: seq<CycleNode>)
    requires multiset(a) == multiset(b)
    ensures forall n :: n in a <==> n in b
  {
    forall n
      ensures n in a <==> n in b
    {
      assert n in a <==> n in multiset(a);
      assert n in b <==> n in multiset(b);
    }
  }

  lemma ListingIncludes(a: seq<CycleNode>, b: seq<CycleNode>)
    requires DistinctNodes(a) && DistinctNodes(b) && forall n :: n in a ==> n in b
    ensures forall id :: id in NodesById(a) ==> id in NodesById(b) && NodesById(b)[id] == NodesById(a)[id]
  {
    forall id | id in NodesById(a)
      ensures id in NodesById(b) && NodesById(b)[id] == NodesById(a)[id]
    {
      var i :| 0 <= i < |a| && a[i].id == id;
      assert a[i] in b;
      var j :| 0 <= j < |b| && b[j] == a[i];
    }
  }

  lemma ListingSameNodes(a: seq<CycleNode>, nodes: seq<CycleNode>)
    requires DistinctNodes(nodes) && Listing(a, nodes)
    ensures NodesById(a) == NodesById(nodes)
    ensures forall n :: n in a <==> n in nodes
  {
    hide NodesById;
    ListingMembers(a, nodes);
    ListingIncludes(a, nodes);
    ListingIncludes(nodes, a);
  }

  // ---------- the plans of two listings ----------

  /** What `FreedIn` and the roots say about the plan of a listing. */
  lemma PlanOf(a: seq<CycleNode>, nodes: seq<CycleNode>)
    requires DistinctNodes(nodes) && Listing(a, nodes)
    ensures NodesById(a) == NodesById(nodes)
    ensures !HasRoot(NodesById(nodes)) ==> Plan(a) == map[]
    ensures HasRoot(NodesById(nodes)) ==> forall id :: id in Plan(a) <==> id in NodesById(nodes) && FreedIn(a, id)
    ensures forall id :: id in Plan(a) ==> IsRootNode(NodesById(nodes), Plan(a)[id])
  {
    hide FreedIn, IsRootNode;
    ListingSameNodes(a, nodes);
    if k :| FirstRootAt(a, k) {
      FirstRootIsRoot(a, k);
      PlanMembers(a, k);
    } else if r :| IsRootNode(NodesById(nodes), r) {
      RootIsListed(a, r);
    }
  }

  /** With a unique youngest move on every cycle, exactly the youngest ones are freed. */
  lemma FreedWhenUnique(nodes: seq<CycleNode>, id: Id)
    requires DistinctNodes(nodes) && OneYoungest(NodesById(nodes))
    ensures FreedIn(nodes, id) <==> OnCycle(Graph(NodesById(nodes)), id) && Youngest(NodesById(nodes), id)
  {
    if FreedIn(nodes, id) {
      FreedIsYoungest(nodes, id);
    } else if OnCycle(Graph(NodesById(nodes)), id) && Youngest(NodesById(nodes), id) {
      UniqueYoungestIsFreed(nodes, id);
    }
  }

  lemma SameFreed(nodes: seq<CycleNode>, a: seq<CycleNode>, b: seq<CycleNode>)
    requires DistinctNodes(nodes) && Listing(a, nodes) && Listing(b, nodes) && OneYoungest(NodesById(nodes))
    ensures Plan(a).Keys == Plan(b).Keys
  {
    hide FreedIn, Plan, OneYoungest, Rearranged, DistinctNodes, NodesById, HasRoot, Youngest, OnCycle;
    PlanOf(a, nodes);
    PlanOf(b, nodes);
    forall id
      ensures id in Plan(a).Keys <==> id in Plan(b).Keys
    {
      FreedWhenUnique(a, id);
      FreedWhenUnique(b, id);
    }
    SetEquality(Plan(a).Keys, Plan(b).Keys);
  }

  /** Listing one or the other of two tied members first frees that one and not the other. */
  lemma TieSplits(nodes: seq<CycleNode>, x: Id, y: Id) returns (a: seq<CycleNode>, b: seq<CycleNode>)
    requires DistinctNodes(nodes) && HasRoot(NodesById(nodes)) && x != y
    requires SameCycle(NodesById(nodes), x, y) && Youngest(NodesById(nodes), x) && Youngest(NodesById(nodes), y)
    ensures Listing(a, nodes) && Listing(b, nodes)
    ensures x in Plan(a) && y !in Plan(a) && y in Plan(b) && x !in Plan(b)
  {
    hide FreedIn, Plan, Youngest, HasRoot, Rearranged, DistinctNodes, NodesById;
    var byId := NodesById(nodes);
    SameCycleBack(byId, x, y);
    a := WithFirst(nodes, x);
    b := WithFirst(nodes, y);
    PlanOf(a, nodes);
    PlanOf(b, nodes);
    FirstIsEntry(a, x);
    FirstIsEntry(b, y);
    EntryIsFreed(a, 0, x, y);
    EntryIsFreed(b, 0, y, x);
  }

  lemma SameCycleBack(byId: Nodes, x: Id, y: Id)
    requires SameCycle(byId, x, y)
    ensures SameCycle(byId, y, x) && x in byId && y in byId
  {
    var k: nat :| Up(Graph(byId), x, k) == y;
    var _ := CycleOrbit(Graph(byId), x, k);
  }

  ghost predicate FreedAgree(nodes: seq<CycleNode>) {
    forall a, b :: DistinctNodes(nodes) && Listing(a, nodes) && Listing(b, nodes) ==> Plan(a).Keys == Plan(b).Keys
  }

  ghost predicate PlansAgree(nodes: seq<CycleNode>) {
    forall a, b :: DistinctNodes(nodes) && Listing(a, nodes) && Listing(b, nodes) ==> Plan(a) == Plan(b)
  }

  /** All listings free the same items exactly when every cycle has a unique youngest move. */
  lemma FreedIgnoresOrder(nodes: seq<CycleNode>)
    requires DistinctNodes(nodes) && HasRoot(NodesById(nodes))
    ensures FreedAgree(nodes) <==> OneYoungest(NodesById(nodes))
  {
    hide Plan, HasRoot, Youngest, Rearranged, DistinctNodes, NodesById, SameCycle;
    var byId := NodesById(nodes);
    if OneYoungest(byId) {
      forall a, b | Listing(a, nodes) && Listing(b, nodes)
        ensures Plan(a).Keys == Plan(b).Keys
      {
        SameFreed(nodes, a, b);
      }
    } else {
      var x, y :| SameCycle(byId, x, y) && Youngest(byId, x) && Youngest(byId, y) && x != y;
      var a, b := TieSplits(nodes, x, y);
      assert x in Plan(a).Keys && x !in Plan(b).Keys;
    }
  }

  lemma RootIsFirst(nodes: seq<CycleNode>, r: Id)
    requires DistinctNodes(nodes) && nodes != [] && nodes[0].id == r && IsRootNode(NodesById(nodes), r)
    ensures FirstRootAt(nodes, 0)
  {
  }

  /** Two roots: whatever is freed goes under the one listed first. */
  lemma RootsSplit(nodes: seq<CycleNode>, r: Id, q: Id) returns (a: seq<CycleNode>, b: seq<CycleNode>)
    requires DistinctNodes(nodes) && !Acyclic(Graph(NodesById(nodes))) && r != q
    requires IsRootNode(NodesById(nodes), r) && IsRootNode(NodesById(nodes), q)
    ensures Listing(a, nodes) && Listing(b, nodes) && Plan(a) != Plan(b)
  {
    hide FreedIn, Plan, Rearranged, DistinctNodes, NodesById, Graph, OnCycle;
    a := WithFirst(nodes, r);
    b := WithFirst(nodes, q);
    PlanOf(a, nodes);
    PlanOf(b, nodes);
    RootIsFirst(a, r);
    RootIsFirst(b, q);
    var id :| OnCycle(Graph(NodesById(nodes)), id);
    var x := SomeoneIsFreed(a, id);
    PlanMembers(a, 0);
    PlanMembers(b, 0);
    assert Plan(a)[x] == r;
    assert x in Plan(b) ==> Plan(b)[x] == q;
  }

  /** The whole plan is the same for all listings exactly when nothing is left to their order. */
  lemma PlanIgnoresOrder(nodes: seq<CycleNode>)
    requires DistinctNodes(nodes)
    ensures PlansAgree(nodes) <==> NoChoice(NodesById(nodes))
  {
    hide Plan, Rearranged, DistinctNodes, NodesById, Graph, Acyclic, IsRootNode, OneYoungest, OneRoot;
    var byId := NodesById(nodes);
    if NoChoice(byId) {
      forall a, b | Listing(a, nodes) && Listing(b, nodes)
        ensures Plan(a) == Plan(b)
      {
        SamePlan(nodes, a, b);
      }
    } else if !OneRoot(byId) {
      var r, q := TwoRoots(byId);
      var a, b := RootsSplit(nodes, r, q);
      assert Plan(a) != Plan(b);
    } else {
      FreedIgnoresOrder(nodes);
      var a, b :| Listing(a, nodes) && Listing(b, nodes) && Plan(a).Keys != Plan(b).Keys;
      assert Plan(a) != Plan(b);
    }
  }

  lemma TwoRoots(byId: Nodes) returns (r: Id, q: Id)
    requires !OneRoot(byId)
    ensures IsRootNode(byId, r) && IsRootNode(byId, q) && r != q
  {
    r, q :| IsRootNode(byId, r) && IsRootNode(byId, q) && r != q;
  }

  lemma SamePlan(nodes: seq<CycleNode>, a: seq<CycleNode>, b: seq<CycleNode>)
    requires DistinctNodes(nodes) && Listing(a, nodes) && Listing(b, nodes) && NoChoice(NodesById(nodes))
    ensures Plan(a) == Plan(b)
  {
    hide Plan, Rearranged, DistinctNodes, NodesById, Graph, Acyclic, IsRootNode, OneYoungest, FreedIn;
    var byId := NodesById(nodes);
    PlanOf(a, nodes);
    PlanOf(b, nodes);
    if Acyclic(Graph(byId)) {
      NothingToFollow(a);
      NothingToFollow(b);
    } else if HasRoot(byId) {
      SameFreed(nodes, a, b);
      assert OneRoot(byId);
      MapEquality(Plan(a), Plan(b));
    }
  }

  // ---------- a tie ----------

  ghost predicate Tied(root: CycleNode, x: CycleNode, y: CycleNode) {
    && DistinctNodes([root, x, y]) && root.parentId == EffectiveTree.ROOT_PARENT_SENTINEL
    && x.parentId == y.id && y.parentId == x.id && x.hlc == y.hlc
  }

  lemma {:induction false} TiedWalk(root: CycleNode, x: CycleNode, y: CycleNode, k: nat)
    requires Tied(root, x, y)
    ensures var g := Graph(NodesById([root, x, y]));
      && Up(g, x.id, k) in {x.id, y.id}
      && Up(g, root.id, k) in {root.id, EffectiveTree.ROOT_PARENT_SENTINEL}
  {
    hide NodesById;
    var nodes := [root, x, y];
    assert nodes[0] == root && nodes[1] == x && nodes[2] == y;
    if k > 0 {
      TiedWalk(root, x, y, k - 1);
    }
  }

  lemma TiedEntry(root: CycleNode, x: CycleNode, y: CycleNode)
    requires Tied(root, x, y)
    ensures var byId := NodesById([root, x, y]);
      && Entry(Graph(byId), [root, x, y], 1, x.id)
      && SameCycle(byId, x.id, y.id) && Youngest(byId, x.id) && !OnCycle(Graph(byId), root.id)
  {
    hide NodesById;
    var nodes := [root, x, y];
    var byId := NodesById(nodes);
    var g := Graph(byId);
    assert nodes[0] == root && nodes[1] == x && nodes[2] == y;
    assert Up(g, x.id, 0) == x.id;
    assert Up(g, x.id, 1) == y.id;
    assert Up(g, x.id, 2) == x.id;
    forall k: nat
      ensures Up(g, x.id, k) in {x.id, y.id}
      ensures Up(g, root.id, k) in {root.id, EffectiveTree.ROOT_PARENT_SENTINEL}
    {
      TiedWalk(root, x, y, k);
    }
    forall j: nat
      ensures !EarlierThan(byId, x.id, Up(g, x.id, j))
    {
      assert Up(g, x.id, j) in {x.id, y.id};
    }
    assert Up(g, root.id, 0) == root.id;
    assert Up(g, root.id, 1) == EffectiveTree.ROOT_PARENT_SENTINEL;
    if OnCycle(g, root.id) {
      var _ := CycleOrbit(g, root.id, 1);
      assert false;
    }
  }

  lemma TiedIds(root: CycleNode, x: CycleNode, y: CycleNode)
    requires Tied(root, x, y)
    ensures NodesById([root, x, y]).Keys == {root.id, x.id, y.id} && FirstRootAt([root, x, y], 0) && x.id != y.id
  {
    hide NodesById;
    var nodes := [root, x, y];
    assert nodes[0] == root && nodes[1] == x && nodes[2] == y;
    assert forall id :: id in NodesById(nodes) ==> id == root.id || id == x.id || id == y.id;
  }

  lemma TieIn(root: CycleNode, x: CycleNode, y: CycleNode)
    requires Tied(root, x, y)
    ensures Plan([root, x, y]) == map[x.id := root.id]
  {
    hide FreedIn, Plan, Graph, OnCycle, Youngest, Entry, NodesById;
    var nodes := [root, x, y];
    TiedEntry(root, x, y);
    TiedIds(root, x, y);
    EntryIsFreed(nodes, 1, x.id, y.id);
    PlanMembers(nodes, 0);
    if FreedIn(nodes, root.id) {
      FreedIsYoungest(nodes, root.id);
      assert false;
    }
    MapEquality(Plan(nodes), map[x.id := root.id]);
  }

  /**
   Two replicas moved `x` under `y` and `y` under `x` with equal stamps. Who
   lists `x` first frees `x`, who lists `y` first frees `y`.
   */
  lemma TieFreesTheFirstListed(root: CycleNode, x: CycleNode, y: CycleNode)
    requires Tied(root, x, y)
    ensures DistinctNodes([root, y, x]) && Listing([root, y, x], [root, x, y])
    ensures Plan([root, x, y]) == map[x.id := root.id]
    ensures Plan([root, y, x]) == map[y.id := root.id]
  {
    hide Plan;
    var there, back := [root, x, y], [root, y, x];
    assert there[0] == back[0] == root && there[1] == back[2] == x && there[2] == back[1] == y;
    assert DistinctNodes(back);
    TieIn(root, x, y);
    TieIn(root, y, x);
  }

  /** Such nodes, with their two plans. */
  lemma RepairDependsOnOrder() returns (a: seq<CycleNode>, b: seq<CycleNode>)
    ensures DistinctNodes(a) && Listing(b, a)
    ensures Plan(a) == map[Id(2) := Id(1)] && Plan(b) == map[Id(3) := Id(1)]
  {
    hide Plan;
    var stamp := Hlc(5, 0, 7);
    var root := CycleNode(Id(1), EffectiveTree.ROOT_PARENT_SENTINEL, 0.0, Hlc(0, 0, 0));
    var x, y := CycleNode(Id(2), Id(3), 1.0, stamp), CycleNode(Id(3), Id(2), 1.0, stamp);
    a, b := [root, x, y], [root, y, x];
    assert a[0] == root && a[1] == x && a[2] == y;
    TieFreesTheFirstListed(root, x, y);
  }
}
