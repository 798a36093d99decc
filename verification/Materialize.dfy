/**
 Projection of documents without a derived tree (schema v1): the lazy tombstone
 rule computed by memoised recursion, and the repair round over what is live.
 */
module Materialize {
  import opened Collections
  import opened TreeTheory
  import opened Siblings
  import opened EffectiveTree
  import opened CycleRepair

  datatype Snapshot = Snapshot(move: CycleNode, isDeleted: bool)

  type Snapshots = map<Id, Snapshot>

  /** The raw parent of every item; the root's parent is the sentinel. */
  function RawGraph(all: Snapshots): map<Id, Id> {
    map id | id in all :: all[id].move.parentId
  }

  function Marked(all: Snapshots): set<Id> {
    set id | id in all && all[id].isDeleted
  }

  /** Some item on the raw ancestor chain, the item itself included, is tombstoned. */
  ghost predicate ChainDeleted(all: Snapshots, id: Id) {
    Hidden(RawGraph(all), Marked(all), id)
  }

  /** The item `k` steps up the raw parents is tombstoned. */
  ghost predicate DeletedAbove(all: Snapshots, id: Id, k: nat) {
    var a := Up(map x | x in all :: all[x].move.parentId, id, k);
    a in all && all[a].isDeleted
  }

  lemma ChainMeans(all: Snapshots, id: Id)
    ensures ChainDeleted(all, id) <==> exists k: nat :: DeletedAbove(all, id, k)
  {
    assert RawGraph(all) == map x | x in all :: all[x].move.parentId;
    if ChainDeleted(all, id) {
      var a :| a in Marked(all) && Above(RawGraph(all), a, id);
      var k: nat :| Up(RawGraph(all), id, k) == a;
      assert DeletedAbove(all, id, k);
    }
    if k: nat :| DeletedAbove(all, id, k) {
      assert Above(RawGraph(all), Up(RawGraph(all), id, k), id);
    }
  }

  // ---------- memoised recursion ----------

  ghost predicate MemoIsRight(all: Snapshots, memo: map<Id, bool>) {
    memo.Keys <= all.Keys && forall id :: id in memo ==> (memo[id] <==> ChainDeleted(all, id))
  }

  // `seen` are live items that led to `id`, or around a loop back into `seen`.
  ghost predicate LedTo(all: Snapshots, seen: set<Id>, id: Id) {
    forall y :: y in seen ==> y in all && !all[y].isDeleted && (all[y].move.parentId in seen || all[y].move.parentId == id)
  }

  /** A loop of live items shields nothing: no chain inside it meets a tombstone. */
  lemma LiveLoop(all: Snapshots, seen: set<Id>, id: Id)
    requires LedTo(all, seen, id) && id in seen
    ensures !ChainDeleted(all, id)
  {
    var g := RawGraph(all);
    assert ClosedSet(g, seen);
    forall a | a in Marked(all)
      ensures !Above(g, a, id)
    {
      if Above(g, a, id) {
        var k: nat :| Up(g, id, k) == a;
        ClosedWalk(g, seen, id, k);
        assert false;
      }
    }
  }

  lemma ChainStep(all: Snapshots, id: Id)
    requires id in all
    ensures ChainDeleted(all, id) <==> all[id].isDeleted || ChainDeleted(all, all[id].move.parentId)
  {
    HiddenStep(RawGraph(all), Marked(all), id);
  }

  lemma ChainEnds(all: Snapshots, id: Id)
    requires id !in all
    ensures !ChainDeleted(all, id)
  {
    HiddenTerminal(RawGraph(all), Marked(all), id);
  }

  method IsDeleted(all: Snapshots, memo0: map<Id, bool>, id: Id, seen: set<Id>)
    returns (result: bool, memo: map<Id, bool>)
    requires ROOT_PARENT_SENTINEL !in all && id in all && seen <= all.Keys
    requires MemoIsRight(all, memo0) && LedTo(all, seen, id)
    ensures MemoIsRight(all, memo) && memo0.Keys <= memo.Keys
    ensures result <==> ChainDeleted(all, id)
    ensures id in memo || id in seen
    decreases |all.Keys - seen|
  {
    hide ChainDeleted;
    memo := memo0;
    if id in memo {
      return memo[id], memo;
    }
    if id in seen {
      LiveLoop(all, seen, id);
      return false, memo;
    }
    result := all[id].isDeleted;
    var parent := all[id].move.parentId;
    ChainStep(all, id);
    if !result && parent != ROOT_PARENT_SENTINEL {
      if parent in all {
        SeenGrows(all.Keys, seen, id);
        result, memo := IsDeleted(all, memo, parent, seen + {id});
      } else {
        ChainEnds(all, parent);
      }
    } else if !result {
      ChainEnds(all, parent);
    }
    memo := memo[id := result];
  }

  lemma SeenGrows(keys: set<Id>, seen: set<Id>, id: Id)
    requires id in keys && id !in seen
    ensures |keys - (seen + {id})| < |keys - seen|
  {
    assert id in keys - seen;
    StrictSubsetSize(keys - (seen + {id}), keys - seen);
  }

  /** The lazy tombstone rule, on cyclic placements too. */
  method ComputeEffectiveDeleted(all: Snapshots, order: seq<Id>) returns (memo: map<Id, bool>)
    requires ROOT_PARENT_SENTINEL !in all && forall id :: id in order <==> id in all
    ensures memo.Keys == all.Keys
    ensures forall id :: id in all ==> (memo[id] <==> ChainDeleted(all, id))
    ensures forall id :: id in all ==> (memo[id] <==> exists k: nat :: DeletedAbove(all, id, k))
  {
    forall id
      ensures ChainDeleted(all, id) <==> exists k: nat :: DeletedAbove(all, id, k)
    {
      ChainMeans(all, id);
    }
    hide ChainDeleted;
    memo := map[];
    for n := 0 to |order|
      invariant MemoIsRight(all, memo)
      invariant forall i :: 0 <= i < n ==> order[i] in memo
    {
      assert order[n] in all;
      var _, m := IsDeleted(all, memo, order[n], {});
      memo := m;
    }
    forall id | id in all
      ensures id in memo
    {
      assert id in order;
    }
  }

  // ---------- agreement with the derived tree ----------

  function Placements(all: Snapshots): Raw {
    map id | id in all :: Placement(all[id].move.parentId, all[id].isDeleted)
  }

  ghost predicate Rooted(all: Snapshots, root: Id) {
    && ROOT_PARENT_SENTINEL !in all && root in all && all[root].move.parentId == ROOT_PARENT_SENTINEL
    && Recovered(Placements(all), root) == {}
  }

  lemma {:induction false} ChainOrRoot(all: Snapshots, root: Id, id: Id)
    requires Rooted(all, root) && id in all && id != root
    requires id in Edges(Placements(all), root) && Grounded(Edges(Placements(all), root), id)
    ensures ChainDeleted(all, id) <==> id in Deleted(Placements(all), root) || all[root].isDeleted
    decreases Depth(Edges(Placements(all), root), id)
  {
    var raw := Placements(all);
    var g := Edges(raw, root);
    NothingRecovered(raw, root);
    EffectiveTreeIsRooted(raw, root);
    var p := all[id].move.parentId;
    assert g[id] == p;
    ChainStep(all, id);
    DeletedIsInherited(raw, root, id);
    DepthStep(g, id);
    hide ChainDeleted, Deleted;
    if p == root {
      ChainStep(all, root);
      ChainEnds(all, ROOT_PARENT_SENTINEL);
      assert p !in Deleted(raw, root) by {
        RootIsNotDeleted(raw, root);
      }
    } else {
      ChainOrRoot(all, root, p);
    }
  }

  lemma RootIsNotDeleted(raw: Raw, root: Id)
    ensures root !in Deleted(raw, root)
  {
  }

  /**
   On placements without faults the two rules delete the same items below the
   root exactly when the root is live, or nothing below it is.
   */
  lemma RulesAgree(all: Snapshots, root: Id)
    requires Rooted(all, root)
    ensures (forall id :: id in all && id != root ==> (ChainDeleted(all, id) <==> id in Deleted(Placements(all), root)))
       <==> !all[root].isDeleted || all.Keys - {root} <= Deleted(Placements(all), root)
  {
    hide ChainDeleted, Deleted;
    EffectiveTreeIsRooted(Placements(all), root);
    forall id | id in all && id != root
      ensures ChainDeleted(all, id) <==> id in Deleted(Placements(all), root) || all[root].isDeleted
    {
      ChainOrRoot(all, root, id);
    }
  }

  // ---------- a repair round on the live part ----------

  /** The items cycle repair looks at. */
  ghost function LiveNodes(all: Snapshots): Nodes {
    map id | id in all && !ChainDeleted(all, id) :: all[id].move
  }

  function Repaired(all: Snapshots, repairs: seq<Repair>): (after: Snapshots)
    ensures after.Keys == all.Keys
    ensures forall id :: id in all ==> after[id].isDeleted == all[id].isDeleted
  {
    if repairs == [] then all
    else
      var n := |repairs| - 1;
      var before := Repaired(all, repairs[..n]);
      var r := repairs[n];
      if r.itemId in before
      then before[r.itemId := before[r.itemId].(move := CycleNode(r.itemId, r.newParentId, r.newRank, r.newHlc))]
      else before
  }

  /** A repaired item ends with the place and stamp of its last repair; nothing else changes. */
  lemma {:induction false} RepairedMeans(all: Snapshots, repairs: seq<Repair>, id: Id)
    requires id in all
    ensures Repaired(all, repairs)[id].isDeleted == all[id].isDeleted
    ensures (forall k :: 0 <= k < |repairs| ==> repairs[k].itemId != id) ==> Repaired(all, repairs)[id] == all[id]
    ensures forall k :: LastRepair(repairs, k, id) ==>
      Repaired(all, repairs)[id].move == CycleNode(id, repairs[k].newParentId, repairs[k].newRank, repairs[k].newHlc)
  {
    if repairs != [] {
      var n := |repairs| - 1;
      RepairedMeans(all, repairs[..n], id);
      RepairedStep(all, repairs, id);
      hide Repaired;
      if repairs[n].itemId == id {
        forall k | LastRepair(repairs, k, id)
          ensures k == n
        {
        }
      } else {
        EarlierRepairs(repairs, id);
        hide LastRepair;
      }
    }
  }

  lemma RepairedStep(all: Snapshots, repairs: seq<Repair>, id: Id)
    requires id in all && repairs != []
    ensures var r, before := repairs[|repairs| - 1], Repaired(all, repairs[..|repairs| - 1])[id];
      Repaired(all, repairs)[id]
      == if r.itemId == id then before.(move := CycleNode(id, r.newParentId, r.newRank, r.newHlc)) else before
  {
  }

  lemma {:induction false} RepairedMoves(all: Snapshots, root: Id, repairs: seq<Repair>)
    requires forall k :: 0 <= k < |repairs| ==> repairs[k].itemId in all && repairs[k].newParentId == root
    ensures RawGraph(Repaired(all, repairs)) == Cut(RawGraph(all), Freed(repairs), root)
  {
    if repairs != [] {
      var n := |repairs| - 1;
      RepairedMoves(all, root, repairs[..n]);
      FreedSplit(repairs);
    }
  }

  /** A chain that avoids the freed items is the same before and after. */
  lemma {:induction false} SameChain(g: map<Id, Id>, freed: set<Id>, root: Id, x: Id, k: nat)
    requires forall j: nat :: j < k ==> Up(g, x, j) !in freed
    ensures Up(Cut(g, freed, root), x, k) == Up(g, x, k)
  {
    if k > 0 {
      SameChain(g, freed, root, x, k - 1);
    }
  }

  /** Freeing live items brings nothing back. */
  lemma StaysDeleted(all: Snapshots, root: Id, repairs: seq<Repair>, x: Id)
    requires forall k :: 0 <= k < |repairs| ==> repairs[k].itemId in all && repairs[k].newParentId == root
    requires forall id :: id in Freed(repairs) ==> !ChainDeleted(all, id)
    requires ChainDeleted(all, x)
    ensures ChainDeleted(Repaired(all, repairs), x)
  {
    var g, freed := RawGraph(all), Freed(repairs);
    var after := Repaired(all, repairs);
    RepairedMoves(all, root, repairs);
    var a :| a in Marked(all) && Above(g, a, x);
    var k: nat :| Up(g, x, k) == a;
    forall j: nat | j < k
      ensures Up(g, x, j) !in freed
    {
      UpAdd(g, x, j, k - j);
      assert Above(g, a, Up(g, x, j));
      assert ChainDeleted(all, Up(g, x, j));
    }
    SameChain(g, freed, root, x, k);
    assert a in Marked(after) && Above(RawGraph(after), a, x);
  }

  lemma {:induction false} SmallerWalk(h: map<Id, Id>, g: map<Id, Id>, id: Id, k: nat)
    requires forall x :: x in h ==> x in g && g[x] == h[x]
    requires OnCycle(h, id)
    ensures Up(g, id, k) == Up(h, id, k)
  {
    if k > 0 {
      SmallerWalk(h, g, id, k - 1);
      var _ := CycleOrbit(h, id, k - 1);
    }
  }

  /** A cycle of part of a graph is a cycle of the graph. */
  lemma SmallerCycle(h: map<Id, Id>, g: map<Id, Id>, id: Id)
    requires forall x :: x in h ==> x in g && g[x] == h[x]
    requires OnCycle(h, id)
    ensures OnCycle(g, id)
  {
    var p: nat :| p > 0 && Up(h, id, p) == id;
    SmallerWalk(h, g, id, p);
  }

  lemma LivePartIsCut(all: Snapshots, root: Id, repairs: seq<Repair>)
    requires forall k :: 0 <= k < |repairs| ==> repairs[k].itemId in LiveNodes(all) && repairs[k].newParentId == root
    ensures var h, g := Graph(LiveNodes(Repaired(all, repairs))), Graph(AppliedAll(LiveNodes(all), repairs));
      forall x :: x in h ==> x in g && g[x] == h[x]
  {
    hide ChainDeleted;
    var after := Repaired(all, repairs);
    AppliedCuts(LiveNodes(all), root, repairs);
    RepairedMoves(all, root, repairs);
    forall x | x in LiveNodes(after)
      ensures x in LiveNodes(all)
    {
      if ChainDeleted(all, x) {
        StaysDeleted(all, root, repairs, x);
        assert false;
      }
    }
    forall x | x in LiveNodes(after)
      ensures Graph(LiveNodes(after))[x] == Graph(AppliedAll(LiveNodes(all), repairs))[x]
    {
      assert RawGraph(after)[x] == after[x].move.parentId;
      assert RawGraph(all)[x] == LiveNodes(all)[x].parentId;
    }
  }

  /** With a live root and no other writer, the projector repairs once and then finds no cycle. */
  lemma RepairRoundSettles(all: Snapshots, root: Id, replicaId: nat, repairs: seq<Repair>)
    requires ROOT_PARENT_SENTINEL !in all && IsRootNode(LiveNodes(all), root)
    requires RepairsAll(LiveNodes(all), root, replicaId, repairs)
    ensures Acyclic(Graph(LiveNodes(Repaired(all, repairs))))
  {
    hide ChainDeleted, RepairsAll, OnCycle, Repaired, AppliedAll;
    RootIsNotFreed(LiveNodes(all), root, replicaId, repairs);
    LivePartIsCut(all, root, repairs);
    OneRoundSettles(LiveNodes(all), root, replicaId, repairs);
    var h := Graph(LiveNodes(Repaired(all, repairs)));
    forall id | id in h
      ensures !OnCycle(h, id)
    {
      if OnCycle(h, id) {
        SmallerCycle(h, Graph(AppliedAll(LiveNodes(all), repairs)), id);
        assert false;
      }
    }
  }
}
