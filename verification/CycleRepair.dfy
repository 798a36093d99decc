/**
 Convergent cycle repair for documents whose placements are projected as they
 are: find every loop of the parent graph, free the youngest move of each.
 */
module CycleRepair {
  import opened Collections
  import opened TreeTheory
  import opened Siblings
  import opened EffectiveTree

  // Only the order of replica ids matters, so a number stands for the text.
  datatype Hlc = Hlc(wallMs: int, counter: nat, replicaId: nat)

  /** `a` is strictly later than `b`. */
  predicate Later(a: Hlc, b: Hlc) {
    if a.wallMs != b.wallMs then a.wallMs > b.wallMs
    else if a.counter != b.counter then a.counter > b.counter
    else a.replicaId > b.replicaId
  }

  /** Stamps compare by wall clock, then counter, then replica: negative, zero or positive. */
  function StampOrder(a: Hlc, b: Hlc): int {
    if a.wallMs != b.wallMs then a.wallMs - b.wallMs
    else if a.counter != b.counter then a.counter - b.counter
    else a.replicaId - b.replicaId
  }

  lemma LaterMeans(a: Hlc, b: Hlc)
    ensures Later(a, b) <==> StampOrder(a, b) > 0
    ensures Later(b, a) <==> StampOrder(a, b) < 0
    ensures StampOrder(a, b) == 0 <==> a == b
  {
  }

  function Max(a: int, b: int): int {
    if a >= b then a else b
  }

  function Tick(prev: Hlc, nowMs: int, replicaId: nat): Hlc {
    var wallMs := Max(prev.wallMs, nowMs);
    Hlc(wallMs, if wallMs == prev.wallMs then prev.counter + 1 else 0, replicaId)
  }

  datatype CycleNode = CycleNode(id: Id, parentId: Id, rank: Rank, hlc: Hlc)

  type Nodes = map<Id, CycleNode>

  datatype Repair = Repair(itemId: Id, newParentId: Id, newRank: Rank, newHlc: Hlc, cycle: seq<Id>)

  ghost predicate DistinctNodes(nodes: seq<CycleNode>) {
    && (forall i, j :: 0 <= i < j < |nodes| ==> nodes[i].id != nodes[j].id)
    && forall i :: 0 <= i < |nodes| ==> nodes[i].id != ROOT_PARENT_SENTINEL
  }

  function NodesById(nodes: seq<CycleNode>): (m: Nodes)
    requires DistinctNodes(nodes)
    ensures forall i :: 0 <= i < |nodes| ==> nodes[i].id in m && m[nodes[i].id] == nodes[i]
    ensures forall id :: id in m ==> exists i :: 0 <= i < |nodes| && nodes[i].id == id
  {
    Indexed(nodes, (n: CycleNode) => n.id, (n: CycleNode) => n)
  }

  function Graph(byId: Nodes): map<Id, Id> {
    map id | id in byId :: byId[id].parentId
  }

  // ---------- finding the loops ----------

  /** A cycle written out: each member's parent is the next one, the last one's the first. */
  ghost predicate IsLoop(g: map<Id, Id>, c: seq<Id>) {
    && c != []
    && (forall i :: 0 <= i < |c| ==> c[i] in g)
    && (forall i :: 0 <= i < |c| - 1 ==> g[c[i]] == c[i + 1]) && g[c[|c| - 1]] == c[0]
    && (forall i, j :: 0 <= i < j < |c| ==> c[i] != c[j])
  }

  ghost predicate Among(cycles: seq<seq<Id>>, id: Id) {
    exists k :: 0 <= k < |cycles| && id in cycles[k]
  }

  /** Loops without a common member. */
  ghost predicate Separate(g: map<Id, Id>, cycles: seq<seq<Id>>) {
    && (forall k :: 0 <= k < |cycles| ==> IsLoop(g, cycles[k]))
    && forall k, l, id :: 0 <= k < l < |cycles| && id in cycles[k] ==> id !in cycles[l]
  }

  /** Every cycle of the graph, each exactly once. */
  ghost predicate ListsCycles(g: map<Id, Id>, cycles: seq<seq<Id>>) {
    Separate(g, cycles) && forall id :: OnCycle(g, id) <==> Among(cycles, id)
  }

  method WalkUp(g: map<Id, Id>, settled: set<Id>, start: Id) returns (path: seq<Id>, loop: int)
    requires start in g && start !in settled
    ensures PathOf(g, start, path) && path != [] && path[0] == start
    ensures forall x :: x in path ==> x !in settled
    ensures -1 <= loop < |path|
    ensures if loop < 0 then Up(g, start, |path|) !in g || Up(g, start, |path|) in settled
            else LoopAt(g, start, path, loop)
  {
    path := [];
    var positions: map<Id, nat> := map[];
    var cur := start;
    while cur in g && cur !in settled
      invariant cur == Up(g, start, |path|)
      invariant PathOf(g, start, path) && forall x :: x in path ==> x !in settled
      invariant forall x :: x in positions <==> x in path
      invariant forall x :: x in positions ==> positions[x] < |path| && path[positions[x]] == x
      invariant if path == [] then cur == start else path[0] == start
      decreases |g| - |path|
    {
      if cur in positions {
        return path, positions[cur];
      }
      PathExtends(g, start, path);
      positions := positions[cur := |path|];
      path := path + [cur];
      PathFits(path, g.Keys);
      cur := g[cur];
    }
    loop := -1;
  }

  /** Parents that are not nodes: the sentinel and dangling ones. */
  ghost function Ends(g: map<Id, Id>): set<Id> {
    set id | id in g && g[id] !in g :: g[id]
  }

  // The loops found so far are those among the settled nodes.
  ghost predicate Found(g: map<Id, Id>, settled: set<Id>, cycles: seq<seq<Id>>) {
    && settled <= g.Keys && ClosedSet(g, settled + Ends(g))
    && Separate(g, cycles)
    && (forall id :: id in settled ==> (OnCycle(g, id) <==> Among(cycles, id)))
    && (forall id :: Among(cycles, id) ==> id in settled)
  }

  lemma LoopIsLoop(g: map<Id, Id>, start: Id, path: seq<Id>, p: nat)
    requires LoopAt(g, start, path, p)
    ensures IsLoop(g, path[p..])
  {
    var c := path[p..];
    forall i | 0 <= i < |c|
      ensures c[i] in g && g[c[i]] == if i < |c| - 1 then c[i + 1] else c[0]
    {
      assert c[i] == Up(g, start, p + i);
      assert g[c[i]] == Up(g, start, p + i + 1);
    }
  }

  lemma WalkFinds(g: map<Id, Id>, settled: set<Id>, start: Id, path: seq<Id>, loop: int, id: Id)
    requires ClosedSet(g, settled + Ends(g)) && PathOf(g, start, path)
    requires forall x :: x in path ==> x !in settled
    requires -1 <= loop < |path|
    requires if loop < 0 then Up(g, start, |path|) !in g || Up(g, start, |path|) in settled
             else LoopAt(g, start, path, loop)
    requires id in path
    ensures OnCycle(g, id) <==> loop >= 0 && id in path[loop..]
  {
    var i: nat :| i < |path| && path[i] == id;
    if loop < 0 {
      var n := |path|;
      if Up(g, start, n) !in g {
        assert Up(g, start, n) == g[Up(g, start, n - 1)];
        assert Up(g, start, n) in Ends(g);
      }
      NoCycleBeforeSettled(g, settled + Ends(g), start, n, i);
    } else if i < loop {
      TailIsNotCyclic(g, start, path, loop, i);
      forall j | 0 <= j < |path[loop..]|
        ensures path[loop..][j] != id
      {
        assert path[loop..][j] == path[loop + j];
      }
    } else {
      LoopIsCycle(g, start, path, loop, i);
      assert path[loop..][i - loop] == id;
    }
  }

  lemma WalkCloses(g: map<Id, Id>, settled: set<Id>, start: Id, path: seq<Id>, loop: int)
    requires ClosedSet(g, settled + Ends(g)) && PathOf(g, start, path)
    requires -1 <= loop < |path|
    requires if loop < 0 then Up(g, start, |path|) !in g || Up(g, start, |path|) in settled
             else LoopAt(g, start, path, loop)
    ensures ClosedSet(g, settled + Members(path) + Ends(g))
  {
    var done := settled + Members(path) + Ends(g);
    forall id | id in done && id in g
      ensures g[id] in done
    {
      if id in path {
        var i: nat :| i < |path| && path[i] == id;
        assert g[id] == Up(g, start, i + 1);
        assert g[id] !in g ==> g[id] in Ends(g);
        assert i + 1 < |path| ==> g[id] == path[i + 1];
      }
    }
  }

  /** One more walk keeps the account right. */
  lemma FoundMore(g: map<Id, Id>, settled: set<Id>, cycles: seq<seq<Id>>, start: Id, path: seq<Id>, loop: int)
    requires Found(g, settled, cycles) && PathOf(g, start, path)
    requires forall x :: x in path ==> x !in settled
    requires -1 <= loop < |path|
    requires if loop < 0 then Up(g, start, |path|) !in g || Up(g, start, |path|) in settled
             else LoopAt(g, start, path, loop)
    ensures Found(g, settled + Members(path), if loop < 0 then cycles else cycles + [path[loop..]])
  {
    hide OnCycle, PathOf, LoopAt, ClosedSet, IsLoop, Among;
    var more := if loop < 0 then cycles else cycles + [path[loop..]];
    WalkCloses(g, settled, start, path, loop);
    if loop >= 0 {
      LoopIsLoop(g, start, path, loop);
    }
    forall id
      ensures Among(more, id) <==> Among(cycles, id) || (loop >= 0 && id in path[loop..])
    {
      AmongMore(cycles, path, loop, id);
    }
    forall id | id in path
      ensures OnCycle(g, id) <==> loop >= 0 && id in path[loop..]
    {
      WalkFinds(g, settled, start, path, loop, id);
    }
    PathKeys(g, start, path);
    forall k, l, id | 0 <= k < l < |more| && id in more[k]
      ensures id !in more[l]
    {
      if l == |cycles| {
        InSomeCycle(cycles, k, id);
        SliceMembers(path, loop, id);
      }
    }
  }

  lemma SliceMembers(path: seq<Id>, loop: int, id: Id)
    requires 0 <= loop < |path|
    ensures id in path[loop..] ==> id in path
  {
  }

  lemma InSomeCycle(cycles: seq<seq<Id>>, k: nat, id: Id)
    requires k < |cycles| && id in cycles[k]
    ensures Among(cycles, id)
  {
  }

  lemma PathKeys(g: map<Id, Id>, start: Id, path: seq<Id>)
    requires PathOf(g, start, path)
    ensures forall x :: x in path ==> x in g
  {
  }

  lemma AmongMore(cycles: seq<seq<Id>>, path: seq<Id>, loop: int, id: Id)
    requires -1 <= loop < |path|
    ensures Among(if loop < 0 then cycles else cycles + [path[loop..]], id)
       <==> Among(cycles, id) || (loop >= 0 && id in path[loop..])
  {
    var more := if loop < 0 then cycles else cycles + [path[loop..]];
    if Among(cycles, id) {
      var k :| 0 <= k < |cycles| && id in cycles[k];
      assert id in more[k];
    }
    if loop >= 0 && id in path[loop..] {
      assert id in more[|cycles|];
    }
  }

  /** `e` is the first member of a cycle on the way up from `s`. */
  ghost predicate MeetsCycleAt(g: map<Id, Id>, s: Id, e: Id) {
    exists k: nat :: Up(g, s, k) == e && OnCycle(g, e) && forall j: nat :: j < k ==> !OnCycle(g, Up(g, s, j))
  }

  /** The first listed node that leads into the cycle of `e` is number `n`, and it enters at `e`. */
  ghost predicate Entry(g: map<Id, Id>, nodes: seq<CycleNode>, n: int, e: Id) {
    && 0 <= n < |nodes| && MeetsCycleAt(g, nodes[n].id, e)
    && forall i :: 0 <= i < n ==> !Above(g, e, nodes[i].id)
  }

  ghost predicate StartsAtEntry(g: map<Id, Id>, nodes: seq<CycleNode>, c: seq<Id>) {
    c != [] && exists n :: Entry(g, nodes, n, c[0])
  }

  lemma LoopIsMet(g: map<Id, Id>, start: Id, path: seq<Id>, loop: nat)
    requires LoopAt(g, start, path, loop)
    ensures MeetsCycleAt(g, start, path[loop])
  {
    LoopIsCycle(g, start, path, loop, loop);
    forall j: nat | j < loop
      ensures !OnCycle(g, Up(g, start, j))
    {
      TailIsNotCyclic(g, start, path, loop, j);
    }
    assert Up(g, start, loop) == path[loop];
  }

  /** No settled node leads to an unsettled one. */
  lemma NewEntry(g: map<Id, Id>, settled: set<Id>, cycles: seq<seq<Id>>, nodes: seq<CycleNode>, n: nat, e: Id)
    requires Found(g, settled, cycles) && e in g && e !in settled
    requires n < |nodes| && MeetsCycleAt(g, nodes[n].id, e)
    requires forall i :: 0 <= i < n ==> nodes[i].id in settled
    ensures Entry(g, nodes, n, e)
  {
    forall i | 0 <= i < n
      ensures !Above(g, e, nodes[i].id)
    {
      if Above(g, e, nodes[i].id) {
        var k: nat :| Up(g, nodes[i].id, k) == e;
        ClosedWalk(g, settled + Ends(g), nodes[i].id, k);
        assert false;
      }
    }
  }

  method DetectCycles(nodes: seq<CycleNode>) returns (cycles: seq<seq<Id>>)
    requires DistinctNodes(nodes)
    ensures ListsCycles(Graph(NodesById(nodes)), cycles)
    ensures forall k :: 0 <= k < |cycles| ==> StartsAtEntry(Graph(NodesById(nodes)), nodes, cycles[k])
  {
    hide Found, Graph, StartsAtEntry, MeetsCycleAt, NodesById;
    var g := Graph(NodesById(nodes));
    var settled: set<Id> := {};
    cycles := [];
    NothingFound(g);
    for n := 0 to |nodes|
      invariant Found(g, settled, cycles)
      invariant forall i :: 0 <= i < n ==> nodes[i].id in settled
      invariant forall k :: 0 <= k < |cycles| ==> StartsAtEntry(g, nodes, cycles[k])
    {
      NodeInGraph(nodes, n);
      ghost var before := (settled, cycles);
      settled, cycles := SettleWalk(g, settled, cycles, nodes[n].id);
      if cycles != before.1 {
        NewStartsAtEntry(g, before.0, before.1, nodes, n, cycles[|before.1|]);
      }
    }
    AllSettled(nodes, settled);
    FoundAll(g, settled, cycles);
  }

  /** One walk: its nodes are settled, and a loop it runs into is recorded. */
  method SettleWalk(g: map<Id, Id>, settled0: set<Id>, cycles0: seq<seq<Id>>, start: Id)
    returns (settled: set<Id>, cycles: seq<seq<Id>>)
    requires Found(g, settled0, cycles0) && start in g
    ensures Found(g, settled, cycles) && settled0 <= settled && start in settled
    ensures cycles == cycles0 || exists c :: cycles == cycles0 + [c] && FreshLoop(g, settled0, start, c)
  {
    hide Found, MeetsCycleAt;
    settled, cycles := settled0, cycles0;
    if start !in settled {
      var path, loop := WalkUp(g, settled, start);
      FoundMore(g, settled, cycles, start, path, loop);
      settled := settled + Members(path);
      if loop >= 0 {
        LoopIsMet(g, start, path, loop);
        assert FreshLoop(g, settled0, start, path[loop..]);
        cycles := cycles + [path[loop..]];
      }
    }
  }

  ghost predicate FreshLoop(g: map<Id, Id>, settled: set<Id>, start: Id, c: seq<Id>) {
    c != [] && c[0] in g && c[0] !in settled && MeetsCycleAt(g, start, c[0])
  }

  lemma NewStartsAtEntry(g: map<Id, Id>, settled: set<Id>, cycles: seq<seq<Id>>, nodes: seq<CycleNode>, n: nat,
                         c: seq<Id>)
    requires Found(g, settled, cycles) && n < |nodes| && FreshLoop(g, settled, nodes[n].id, c)
    requires forall i :: 0 <= i < n ==> nodes[i].id in settled
    ensures StartsAtEntry(g, nodes, c)
  {
    NewEntry(g, settled, cycles, nodes, n, c[0]);
  }

  lemma NothingFound(g: map<Id, Id>)
    ensures Found(g, {}, [])
  {
  }

  lemma NodeInGraph(nodes: seq<CycleNode>, n: nat)
    requires DistinctNodes(nodes) && n < |nodes|
    ensures nodes[n].id in Graph(NodesById(nodes))
  {
  }

  lemma AllSettled(nodes: seq<CycleNode>, settled: set<Id>)
    requires DistinctNodes(nodes) && forall i :: 0 <= i < |nodes| ==> nodes[i].id in settled
    ensures Graph(NodesById(nodes)).Keys <= settled
  {
  }

  lemma FoundAll(g: map<Id, Id>, settled: set<Id>, cycles: seq<seq<Id>>)
    requires Found(g, settled, cycles) && g.Keys <= settled
    ensures ListsCycles(g, cycles)
  {
  }

  // ---------- repairing them ----------

  /** `r` frees a youngest move of its cycle, to the end of the root's children, with a stamp that beats the cycle. */
  ghost predicate Repairs(byId: Nodes, rootId: Id, replicaId: nat, r: Repair) {
    && r.itemId in r.cycle && r.newParentId == rootId && r.newHlc.replicaId == replicaId
    && (forall id :: id in r.cycle ==> id in byId)
    && (forall id :: id in r.cycle ==> !Later(byId[id].hlc, byId[r.itemId].hlc) && Later(r.newHlc, byId[id].hlc))
    && (forall id :: id in byId && byId[id].parentId == rootId ==> byId[id].rank < r.newRank)
  }

  /** The member freed is the first one, in the order of the list, that no other member is later than. */
  ghost predicate FirstYoungest(byId: Nodes, r: Repair) {
    exists f: nat :: FreedAt(byId, r, f)
  }

  // Everything listed before position `f` is earlier than its move.
  ghost predicate FreedAt(byId: Nodes, r: Repair, f: nat) {
    && f < |r.cycle| && r.cycle[f] == r.itemId && r.itemId in byId
    && forall i :: 0 <= i < f ==> EarlierThan(byId, r.cycle[i], r.itemId)
  }

  ghost predicate EarlierThan(byId: Nodes, a: Id, b: Id) {
    a in byId && b in byId && Later(byId[b].hlc, byId[a].hlc)
  }

  /** `id` is number `f` of the cycle, and everyone listed before it has an earlier stamp. */
  ghost predicate FirstAt(cycle: seq<Id>, byId: Nodes, id: Id, f: nat)
    requires forall x :: x in cycle ==> x in byId
  {
    && f < |cycle| && cycle[f] == id
    && forall i :: 0 <= i < f ==> StampOrder(byId[cycle[i]].hlc, byId[id].hlc) < 0
  }

  method RepairForCycle(cycle: seq<Id>, byId: Nodes, rootId: Id, rootChildRanks: seq<Rank>, nowMs: int, replicaId: nat)
    returns (r: Repair)
    requires cycle != [] && forall id :: id in cycle ==> id in byId
    requires forall id :: id in byId && byId[id].parentId == rootId ==> byId[id].rank in rootChildRanks
    ensures r.cycle == cycle && Repairs(byId, rootId, replicaId, r) && FirstYoungest(byId, r)
    ensures r.itemId in cycle
    ensures forall i :: 0 <= i < |cycle| ==> StampOrder(byId[cycle[i]].hlc, byId[r.itemId].hlc) <= 0
    ensures exists f: nat :: FirstAt(cycle, byId, r.itemId, f)
    ensures r.newParentId == rootId && r.newHlc.replicaId == replicaId
    ensures r.newHlc.wallMs == if nowMs > byId[r.itemId].hlc.wallMs then nowMs else byId[r.itemId].hlc.wallMs
    ensures r.newHlc.counter == if nowMs > byId[r.itemId].hlc.wallMs then 0 else byId[r.itemId].hlc.counter + 1
    ensures forall q :: q in rootChildRanks ==> q < r.newRank
  {
    var freed := cycle[0];
    ghost var f: nat := 0;
    for i := 0 to |cycle|
      invariant 0 <= f < |cycle| && cycle[f] == freed
      invariant forall j :: 0 <= j < i ==> !Later(byId[cycle[j]].hlc, byId[freed].hlc)
      invariant forall j :: 0 <= j < f ==> Later(byId[freed].hlc, byId[cycle[j]].hlc)
      invariant f <= i
    {
      if Later(byId[cycle[i]].hlc, byId[freed].hlc) {
        freed, f := cycle[i], i;
      }
    }
    var maxHlc := byId[freed].hlc;
    var last := GreatestRank(rootChildRanks);
    var newRank := RankBetween(last, None);
    var newHlc := Tick(maxHlc, Max(nowMs, maxHlc.wallMs), replicaId);
    r := Repair(freed, rootId, newRank.value, newHlc, cycle);
    assert FreedAt(byId, r, f);
    assert forall i :: 0 <= i < |cycle| ==> StampOrder(byId[cycle[i]].hlc, byId[cycle[f]].hlc) <= 0;
    assert FirstAt(cycle, byId, freed, f);
  }

  method GreatestRank(ranks: seq<Rank>) returns (last: Option<Rank>)
    ensures last.None? <==> ranks == []
    ensures last.Some? ==> last.value in ranks && forall q :: q in ranks ==> q <= last.value
  {
    if ranks == [] {
      return None;
    }
    var m := ranks[0];
    for i := 1 to |ranks|
      invariant m in ranks && forall j :: 0 <= j < i ==> ranks[j] <= m
    {
      if ranks[i] > m {
        m := ranks[i];
      }
    }
    last := Some(m);
  }

  ghost predicate IsRootNode(byId: Nodes, root: Id) {
    root in byId && byId[root].parentId == ROOT_PARENT_SENTINEL
  }

  /** The first node without a parent item is taken as the root. */
  ghost predicate FirstRootAt(nodes: seq<CycleNode>, k: int) {
    && 0 <= k < |nodes| && nodes[k].parentId == ROOT_PARENT_SENTINEL
    && forall i :: 0 <= i < k ==> nodes[i].parentId != ROOT_PARENT_SENTINEL
  }

  lemma FirstRootIsRoot(nodes: seq<CycleNode>, k: int)
    requires DistinctNodes(nodes) && FirstRootAt(nodes, k)
    ensures IsRootNode(NodesById(nodes), nodes[k].id)
  {
  }

  function CyclesOf(repairs: seq<Repair>): (c: seq<seq<Id>>)
    ensures |c| == |repairs| && forall k :: 0 <= k < |c| ==> c[k] == repairs[k].cycle
  {
    seq(|repairs|, k requires 0 <= k < |repairs| => repairs[k].cycle)
  }

  /** One repair per cycle of the graph. */
  ghost predicate RepairsAll(byId: Nodes, root: Id, replicaId: nat, repairs: seq<Repair>) {
    && ListsCycles(Graph(byId), CyclesOf(repairs))
    && forall k :: 0 <= k < |repairs| ==> Repairs(byId, root, replicaId, repairs[k]) && FirstYoungest(byId, repairs[k])
  }

  /** What one round gives: a repair per cycle under the first root, and nothing without a root or a cycle. */
  ghost predicate RoundOf(nodes: seq<CycleNode>, replicaId: nat, repairs: seq<Repair>)
    requires DistinctNodes(nodes)
  {
    var byId := NodesById(nodes);
    if (exists k :: FirstRootAt(nodes, k)) && !Acyclic(Graph(byId))
    then exists k :: FirstRootAt(nodes, k) && RepairsAll(byId, nodes[k].id, replicaId, repairs)
    else repairs == []
  }

  /** `id` is the first member, on the way up from `e`, that no member of the cycle is later than. */
  ghost predicate FirstYoungestFrom(byId: Nodes, e: Id, k: nat, id: Id) {
    && Up(Graph(byId), e, k) == id
    && (forall j: nat :: j < k ==> EarlierThan(byId, Up(Graph(byId), e, j), id))
    && forall j: nat :: !EarlierThan(byId, id, Up(Graph(byId), e, j))
  }

  /** The listing alone decides which members of cycles are freed. */
  ghost predicate FreedIn(nodes: seq<CycleNode>, id: Id)
    requires DistinctNodes(nodes)
  {
    var byId := NodesById(nodes);
    exists n: int, e: Id, k: nat :: Entry(Graph(byId), nodes, n, e) && FirstYoungestFrom(byId, e, k, id)
  }

  /** What a listing of the nodes leads to: the freed items and the root each is hung under. */
  ghost function Plan(nodes: seq<CycleNode>): map<Id, Id>
    requires DistinctNodes(nodes)
  {
    if k :| FirstRootAt(nodes, k)
    then map id | id in NodesById(nodes) && FreedIn(nodes, id) :: nodes[k].id
    else map[]
  }

  ghost predicate Follows(nodes: seq<CycleNode>, repairs: seq<Repair>)
    requires DistinctNodes(nodes)
  {
    && Freed(repairs) == Plan(nodes).Keys
    && forall k :: 0 <= k < |repairs| ==>
         repairs[k].itemId in Plan(nodes) && repairs[k].newParentId == Plan(nodes)[repairs[k].itemId]
  }

  method ComputeCycleRepairs(nodes: seq<CycleNode>, nowMs: int, replicaId: nat) returns (repairs: seq<Repair>)
    requires DistinctNodes(nodes)
    ensures RoundOf(nodes, replicaId, repairs) && Follows(nodes, repairs)
  {
    hide ListsCycles, Acyclic, Graph, Repairs, FirstYoungest, StartsAtEntry, Follows, FreedIn;
    var byId := NodesById(nodes);
    var cycles := DetectCycles(nodes);
    CyclicMeansListed(Graph(byId), cycles);
    var at := FirstRoot(nodes);
    assert at < |nodes| ==> FirstRootAt(nodes, at);
    if at == |nodes| || cycles == [] {
      NothingToFollow(nodes);
      return [];
    }
    var ranks := RanksUnder(nodes, nodes[at].id);
    repairs := RepairEach(cycles, byId, nodes[at].id, ranks, nowMs, replicaId);
    RepairsFollowPlan(nodes, at, replicaId, repairs);
  }

  method RepairEach(cycles: seq<seq<Id>>, byId: Nodes, rootId: Id, rootChildRanks: seq<Rank>, nowMs: int, replicaId: nat)
    returns (repairs: seq<Repair>)
    requires ListsCycles(Graph(byId), cycles)
    requires forall id :: id in byId && byId[id].parentId == rootId ==> byId[id].rank in rootChildRanks
    ensures RepairsAll(byId, rootId, replicaId, repairs) && CyclesOf(repairs) == cycles
  {
    hide ListsCycles, Repairs, FirstYoungest;
    repairs := [];
    for k := 0 to |cycles|
      invariant |repairs| == k && forall l :: 0 <= l < k ==> repairs[l].cycle == cycles[l]
      invariant forall l :: 0 <= l < k ==> Repairs(byId, rootId, replicaId, repairs[l]) && FirstYoungest(byId, repairs[l])
    {
      LoopInNodes(byId, cycles, k);
      var r := RepairForCycle(cycles[k], byId, rootId, rootChildRanks, nowMs, replicaId);
      repairs := repairs + [r];
    }
    assert CyclesOf(repairs) == cycles;
  }

  lemma CyclicMeansListed(g: map<Id, Id>, cycles: seq<seq<Id>>)
    requires ListsCycles(g, cycles)
    ensures Acyclic(g) <==> cycles == []
  {
    if cycles != [] {
      assert IsLoop(g, cycles[0]) && cycles[0][0] in cycles[0];
      assert Among(cycles, cycles[0][0]);
    }
  }

  lemma LoopInNodes(byId: Nodes, cycles: seq<seq<Id>>, k: nat)
    requires ListsCycles(Graph(byId), cycles) && k < |cycles|
    ensures cycles[k] != [] && forall id :: id in cycles[k] ==> id in byId
  {
    assert IsLoop(Graph(byId), cycles[k]);
  }

  method FirstRoot(nodes: seq<CycleNode>) returns (at: nat)
    ensures at <= |nodes| && (at < |nodes| ==> nodes[at].parentId == ROOT_PARENT_SENTINEL)
    ensures forall i :: 0 <= i < at ==> nodes[i].parentId != ROOT_PARENT_SENTINEL
  {
    at := 0;
    while at < |nodes| && nodes[at].parentId != ROOT_PARENT_SENTINEL
      invariant at <= |nodes| && forall i :: 0 <= i < at ==> nodes[i].parentId != ROOT_PARENT_SENTINEL
    {
      at := at + 1;
    }
  }

  method RanksUnder(nodes: seq<CycleNode>, rootId: Id) returns (ranks: seq<Rank>)
    requires DistinctNodes(nodes)
    ensures forall id :: id in NodesById(nodes) && NodesById(nodes)[id].parentId == rootId ==>
      NodesById(nodes)[id].rank in ranks
  {
    ranks := [];
    for n := 0 to |nodes|
      invariant forall i :: 0 <= i < n && nodes[i].parentId == rootId ==> nodes[i].rank in ranks
    {
      if nodes[n].parentId == rootId {
        ranks := ranks + [nodes[n].rank];
      }
    }
  }

  // ---------- after the repairs ----------

  /** The node as an applied repair leaves it. */
  function Applied(byId: Nodes, r: Repair): Nodes {
    if r.itemId in byId
    then byId[r.itemId := CycleNode(r.itemId, r.newParentId, r.newRank, r.newHlc)]
    else byId
  }

  function AppliedAll(byId: Nodes, repairs: seq<Repair>): (after: Nodes)
    ensures after.Keys == byId.Keys
  {
    if repairs == [] then byId else Applied(AppliedAll(byId, repairs[..|repairs| - 1]), repairs[|repairs| - 1])
  }

  /** Repair number `k` is the last one of `id`. */
  ghost predicate LastRepair(repairs: seq<Repair>, k: int, id: Id) {
    && 0 <= k < |repairs| && repairs[k].itemId == id
    && forall l :: k < l < |repairs| ==> repairs[l].itemId != id
  }

  /** A freed item ends with the place and stamp of its last repair; every other node stands. */
  lemma {:induction false} AppliedMeans(byId: Nodes, repairs: seq<Repair>, id: Id)
    requires id in byId
    ensures (forall k :: 0 <= k < |repairs| ==> repairs[k].itemId != id) ==> AppliedAll(byId, repairs)[id] == byId[id]
    ensures forall k :: LastRepair(repairs, k, id) ==>
      AppliedAll(byId, repairs)[id] == CycleNode(id, repairs[k].newParentId, repairs[k].newRank, repairs[k].newHlc)
  {
    if repairs != [] {
      var n := |repairs| - 1;
      AppliedMeans(byId, repairs[..n], id);
      AppliedStep(byId, repairs, id);
      hide AppliedAll;
      if repairs[n].itemId == id {
        forall k | LastRepair(repairs, k, id)
          ensures k == n
        {
        }
      } else {
        EarlierRepairs(repairs, id);
        hide LastRepair;
      }
    }
  }

  lemma EarlierRepairs(repairs: seq<Repair>, id: Id)
    requires repairs != [] && repairs[|repairs| - 1].itemId != id
    ensures var earlier := repairs[..|repairs| - 1];
      && ((forall k :: 0 <= k < |repairs| ==> repairs[k].itemId != id) ==>
            forall k :: 0 <= k < |earlier| ==> earlier[k].itemId != id)
      && forall k :: LastRepair(repairs, k, id) ==> LastRepair(earlier, k, id) && repairs[k] == earlier[k]
  {
  }

  lemma AppliedStep(byId: Nodes, repairs: seq<Repair>, id: Id)
    requires id in byId && repairs != []
    ensures var r, before := repairs[|repairs| - 1], AppliedAll(byId, repairs[..|repairs| - 1])[id];
      AppliedAll(byId, repairs)[id]
      == if r.itemId == id then CycleNode(id, r.newParentId, r.newRank, r.newHlc) else before
  {
  }

  ghost function Freed(repairs: seq<Repair>): set<Id> {
    set k | 0 <= k < |repairs| :: repairs[k].itemId
  }

  lemma {:induction false} AppliedCuts(byId: Nodes, root: Id, repairs: seq<Repair>)
    requires forall k :: 0 <= k < |repairs| ==> repairs[k].itemId in byId && repairs[k].newParentId == root
    ensures Graph(AppliedAll(byId, repairs)) == Cut(Graph(byId), Freed(repairs), root)
  {
    if repairs != [] {
      var n := |repairs| - 1;
      AppliedCuts(byId, root, repairs[..n]);
      FreedSplit(repairs);
    }
  }

  lemma FreedSplit(repairs: seq<Repair>)
    requires repairs != []
    ensures Freed(repairs) == Freed(repairs[..|repairs| - 1]) + {repairs[|repairs| - 1].itemId}
  {
    var n := |repairs| - 1;
    forall id | id in Freed(repairs)
      ensures id in Freed(repairs[..n]) + {repairs[n].itemId}
    {
      var k :| 0 <= k < |repairs| && repairs[k].itemId == id;
      assert k < n ==> repairs[..n][k].itemId == id;
    }
  }

  /** Dropping a node whose parent is no node breaks no cycle. */
  lemma DropTerminalStep(g: map<Id, Id>, r: Id, id: Id)
    requires r in g && g[r] !in g && OnCycle(g, id)
    ensures OnCycle(g - {r}, id)
  {
    var h := g - {r};
    forall j: nat
      ensures Up(g, id, j) != r
    {
      if Up(g, id, j) == r {
        assert Up(g, id, j + 1) == g[r];
        var _ := CycleOrbit(g, id, j + 1);
        assert false;
      }
    }
    forall j: nat
      ensures Up(h, id, j) == Up(g, id, j)
    {
      WalkWithout(g, r, id, j);
    }
    var p: nat :| p > 0 && Up(g, id, p) == id;
    assert Up(h, id, p) == id;
    assert Up(g, id, 0) == id;
  }

  lemma {:induction false} WalkWithout(g: map<Id, Id>, r: Id, id: Id, k: nat)
    requires forall j: nat :: Up(g, id, j) != r
    ensures Up(g - {r}, id, k) == Up(g, id, k)
  {
    if k > 0 {
      WalkWithout(g, r, id, k - 1);
      assert Up(g, id, k - 1) != r;
    }
  }

  lemma {:induction false} LoopWalk(g: map<Id, Id>, c: seq<Id>, i: nat, k: nat)
    requires IsLoop(g, c) && i < |c|
    ensures i + k < |c| ==> Up(g, c[i], k) == c[i + k]
  {
    if k > 0 {
      LoopWalk(g, c, i, k - 1);
    }
  }

  /** From any member of a loop the walk meets every member. */
  lemma LoopMeets(g: map<Id, Id>, c: seq<Id>, i: nat, j: nat) returns (k: nat)
    requires IsLoop(g, c) && i < |c| && j < |c|
    ensures Up(g, c[i], k) == c[j]
  {
    if i <= j {
      k := j - i;
      LoopWalk(g, c, i, k);
    } else {
      LoopWalk(g, c, i, |c| - 1 - i);
      LoopWalk(g, c, 0, j);
      var n := |c| - i;
      assert Up(g, c[i], n) == c[0];
      UpAdd(g, c[i], n, j);
      k := n + j;
    }
  }

  lemma FreedCutsEveryCycle(byId: Nodes, root: Id, replicaId: nat, repairs: seq<Repair>, id: Id)
    requires RepairsAll(byId, root, replicaId, repairs) && OnCycle(Graph(byId), id)
    ensures exists k: nat :: Up(Graph(byId), id, k) in Freed(repairs)
  {
    var g := Graph(byId);
    var cycles := CyclesOf(repairs);
    assert Among(cycles, id);
    var c :| 0 <= c < |cycles| && id in cycles[c];
    assert Repairs(byId, root, replicaId, repairs[c]) && IsLoop(g, cycles[c]);
    var i :| 0 <= i < |cycles[c]| && cycles[c][i] == id;
    var j :| 0 <= j < |cycles[c]| && cycles[c][j] == repairs[c].itemId;
    var k := LoopMeets(g, cycles[c], i, j);
    assert repairs[c].itemId in Freed(repairs);
  }

  /** One round of repairs leaves no cycle, so a second round finds nothing to repair. */
  lemma OneRoundSettles(byId: Nodes, root: Id, replicaId: nat, repairs: seq<Repair>)
    requires ROOT_PARENT_SENTINEL !in byId && IsRootNode(byId, root)
    requires RepairsAll(byId, root, replicaId, repairs)
    ensures Acyclic(Graph(AppliedAll(byId, repairs)))
  {
    var g := Graph(byId);
    RootIsNotFreed(byId, root, replicaId, repairs);
    AppliedCuts(byId, root, repairs);
    var after := Graph(AppliedAll(byId, repairs));
    hide Repairs, FirstYoungest, IsLoop;
    forall id | id in after
      ensures !OnCycle(after, id)
    {
      if OnCycle(after, id) {
        DropTerminalStep(after, root, id);
        assert after - {root} == Cut(g - {root}, Freed(repairs), root);
        CycleAvoidsCut(g - {root}, Freed(repairs), root, id);
        SameWithoutRoot(g, root, Freed(repairs), id);
        FreedCutsEveryCycle(byId, root, replicaId, repairs, id);
        assert false;
      }
    }
  }

  /** Run on the nodes that the first round leaves, in whatever order, the second round repairs nothing. */
  lemma SecondRoundIsEmpty(nodes: seq<CycleNode>, replicaId: nat, repairs: seq<Repair>,
                           next: seq<CycleNode>, otherId: nat, again: seq<Repair>)
    requires DistinctNodes(nodes) && RoundOf(nodes, replicaId, repairs)
    requires DistinctNodes(next) && NodesById(next) == AppliedAll(NodesById(nodes), repairs)
    requires RoundOf(next, otherId, again)
    ensures again == []
  {
    hide Acyclic, RepairsAll, Graph, NodesById;
    var byId := NodesById(nodes);
    if k :| FirstRootAt(nodes, k) {
      if !Acyclic(Graph(byId)) {
        var at :| FirstRootAt(nodes, at) && RepairsAll(byId, nodes[at].id, replicaId, repairs);
        FirstRootIsRoot(nodes, at);
        OneRoundSettles(byId, nodes[at].id, replicaId, repairs);
      }
    } else if k :| FirstRootAt(next, k) {
      FirstRootIsRoot(next, k);
      RootIsListed(nodes, next[k].id);
    }
  }

  lemma RootIsListed(nodes: seq<CycleNode>, root: Id)
    requires DistinctNodes(nodes) && IsRootNode(NodesById(nodes), root)
    ensures exists k :: FirstRootAt(nodes, k)
  {
    hide NodesById;
    var i :| 0 <= i < |nodes| && nodes[i].id == root;
    var k := LeastRoot(nodes, i);
  }

  lemma {:induction false} LeastRoot(nodes: seq<CycleNode>, i: nat) returns (k: nat)
    requires i < |nodes| && nodes[i].parentId == ROOT_PARENT_SENTINEL
    ensures FirstRootAt(nodes, k)
  {
    if j: nat :| j < i && nodes[j].parentId == ROOT_PARENT_SENTINEL {
      k := LeastRoot(nodes, j);
    } else {
      k := i;
    }
  }

  /** A cycle that avoids the root is a cycle with the root back in. */
  lemma SameWithoutRoot(g: map<Id, Id>, root: Id, cut: set<Id>, id: Id)
    requires root in g && OnCycle(g - {root}, id) && forall k: nat :: Up(g - {root}, id, k) !in cut
    ensures OnCycle(g, id) && forall k: nat :: Up(g, id, k) !in cut
  {
    var h := g - {root};
    forall j: nat
      ensures Up(g, id, j) == Up(h, id, j)
    {
      WalkInside(g, root, id, j);
    }
    var p: nat :| p > 0 && Up(h, id, p) == id;
    assert Up(g, id, p) == id;
  }

  lemma {:induction false} WalkInside(g: map<Id, Id>, root: Id, id: Id, k: nat)
    requires OnCycle(g - {root}, id)
    ensures Up(g, id, k) == Up(g - {root}, id, k)
  {
    if k > 0 {
      WalkInside(g, root, id, k - 1);
      var _ := CycleOrbit(g - {root}, id, k - 1);
    }
  }

  lemma RootIsNotFreed(byId: Nodes, root: Id, replicaId: nat, repairs: seq<Repair>)
    requires ROOT_PARENT_SENTINEL !in byId && IsRootNode(byId, root)
    requires RepairsAll(byId, root, replicaId, repairs)
    ensures root !in Freed(repairs)
    ensures forall k :: 0 <= k < |repairs| ==> repairs[k].itemId in byId && repairs[k].newParentId == root
  {
    var g := Graph(byId);
    forall k | 0 <= k < |repairs|
      ensures repairs[k].itemId in byId && repairs[k].newParentId == root && repairs[k].itemId != root
    {
      assert Repairs(byId, root, replicaId, repairs[k]);
      var c := CyclesOf(repairs)[k];
      assert IsLoop(g, c) && repairs[k].itemId in c;
      var i :| 0 <= i < |c| && c[i] == repairs[k].itemId;
      assert g[c[i]] == if i < |c| - 1 then c[i + 1] else c[0];
      assert g[c[i]] in g;
    }
  }

  // ---------- which member is freed ----------

  /** A cycle has one entry. */
  lemma EntryUnique(g: map<Id, Id>, nodes: seq<CycleNode>, m: int, d: Id, n: int, e: Id)
    requires Entry(g, nodes, m, d) && Entry(g, nodes, n, e) && Above(g, e, d)
    ensures d == e
  {
    var k: nat :| Up(g, d, k) == e;
    var back := CycleOrbit(g, d, k);
    assert Above(g, d, e);
    if m < n {
      assert Above(g, d, nodes[m].id);
      AboveTransitive(g, e, d, nodes[m].id);
      assert false;
    } else if n < m {
      assert Above(g, e, nodes[n].id);
      AboveTransitive(g, d, e, nodes[n].id);
      assert false;
    }
  }

  lemma {:induction false} LoopStays(g: map<Id, Id>, c: seq<Id>, k: nat)
    requires IsLoop(g, c)
    ensures Up(g, c[0], k) in c
  {
    if k > 0 {
      LoopStays(g, c, k - 1);
      var i :| 0 <= i < |c| && c[i] == Up(g, c[0], k - 1);
      assert g[c[i]] == if i < |c| - 1 then c[i + 1] else c[0];
    }
  }

  /** A repair of a loop written out from its entry frees what the listing decides. */
  lemma RepairIsFirstYoungest(byId: Nodes, root: Id, replicaId: nat, r: Repair) returns (f: nat)
    requires IsLoop(Graph(byId), r.cycle) && Repairs(byId, root, replicaId, r) && FirstYoungest(byId, r)
    ensures FirstYoungestFrom(byId, r.cycle[0], f, r.itemId)
  {
    var g := Graph(byId);
    f :| FreedAt(byId, r, f);
    LoopWalk(g, r.cycle, 0, f);
    forall j: nat | j < f
      ensures EarlierThan(byId, Up(g, r.cycle[0], j), r.itemId)
    {
      LoopWalk(g, r.cycle, 0, j);
    }
    forall j: nat
      ensures !EarlierThan(byId, r.itemId, Up(g, r.cycle[0], j))
    {
      LoopStays(g, r.cycle, j);
    }
  }

  lemma OneFirstYoungest(byId: Nodes, e: Id, k: nat, a: Id, l: nat, b: Id)
    requires FirstYoungestFrom(byId, e, k, a) && FirstYoungestFrom(byId, e, l, b)
    ensures a == b
  {
    if k != l {
      assert false;
    }
  }

  lemma NothingToFollow(nodes: seq<CycleNode>)
    requires DistinctNodes(nodes)
    requires Acyclic(Graph(NodesById(nodes))) || forall k :: !FirstRootAt(nodes, k)
    ensures Plan(nodes) == map[] && Follows(nodes, [])
  {
    hide NodesById;
    assert Plan(nodes).Keys == {};
    assert Freed([]) == {};
  }

  lemma RepairsFollowPlan(nodes: seq<CycleNode>, at: nat, replicaId: nat, repairs: seq<Repair>)
    requires DistinctNodes(nodes) && FirstRootAt(nodes, at)
    requires RepairsAll(NodesById(nodes), nodes[at].id, replicaId, repairs)
    requires forall k :: 0 <= k < |repairs| ==> StartsAtEntry(Graph(NodesById(nodes)), nodes, CyclesOf(repairs)[k])
    ensures Follows(nodes, repairs)
  {
    hide FreedIn, Plan, RepairsAll, StartsAtEntry;
    PlanMembers(nodes, at);
    forall k | 0 <= k < |repairs|
      ensures repairs[k].itemId in Plan(nodes) && repairs[k].newParentId == nodes[at].id
    {
      RepairIsPlanned(nodes, at, replicaId, repairs, k);
    }
    forall id | id in Plan(nodes)
      ensures id in Freed(repairs)
    {
      PlannedIsRepaired(nodes, at, replicaId, repairs, id);
    }
    SetEquality(Freed(repairs), Plan(nodes).Keys);
  }

  lemma PlanMembers(nodes: seq<CycleNode>, at: nat)
    requires DistinctNodes(nodes) && FirstRootAt(nodes, at)
    ensures forall id :: id in Plan(nodes) <==> id in NodesById(nodes) && FreedIn(nodes, id)
    ensures forall id :: id in Plan(nodes) ==> Plan(nodes)[id] == nodes[at].id
  {
    hide FreedIn, NodesById;
  }

  lemma RepairIsPlanned(nodes: seq<CycleNode>, at: nat, replicaId: nat, repairs: seq<Repair>, k: nat)
    requires DistinctNodes(nodes) && FirstRootAt(nodes, at) && k < |repairs|
    requires RepairsAll(NodesById(nodes), nodes[at].id, replicaId, repairs)
    requires StartsAtEntry(Graph(NodesById(nodes)), nodes, CyclesOf(repairs)[k])
    ensures repairs[k].itemId in NodesById(nodes) && FreedIn(nodes, repairs[k].itemId)
    ensures repairs[k].newParentId == nodes[at].id
  {
    hide FirstYoungestFrom, Entry, Repairs, FirstYoungest;
    var byId := NodesById(nodes);
    var r := repairs[k];
    assert Repairs(byId, nodes[at].id, replicaId, r) && FirstYoungest(byId, r);
    RepairTargets(byId, nodes[at].id, replicaId, r);
    assert IsLoop(Graph(byId), CyclesOf(repairs)[k]);
    var f := RepairIsFirstYoungest(byId, nodes[at].id, replicaId, r);
    var n :| Entry(Graph(byId), nodes, n, r.cycle[0]);
  }

  lemma RepairTargets(byId: Nodes, root: Id, replicaId: nat, r: Repair)
    requires Repairs(byId, root, replicaId, r)
    ensures r.itemId in byId && r.newParentId == root
  {
  }

  lemma PlannedIsRepaired(nodes: seq<CycleNode>, at: nat, replicaId: nat, repairs: seq<Repair>, id: Id)
    requires DistinctNodes(nodes) && FirstRootAt(nodes, at) && FreedIn(nodes, id)
    requires RepairsAll(NodesById(nodes), nodes[at].id, replicaId, repairs)
    requires forall k :: 0 <= k < |repairs| ==> StartsAtEntry(Graph(NodesById(nodes)), nodes, CyclesOf(repairs)[k])
    ensures id in Freed(repairs)
  {
    hide FirstYoungestFrom, Entry, Repairs, FirstYoungest, IsLoop, OnCycle, Up;
    var byId := NodesById(nodes);
    var g, cycles := Graph(byId), CyclesOf(repairs);
    var n, e, k: nat :| Entry(g, nodes, n, e) && FirstYoungestFrom(byId, e, k, id);
    EntryIsCyclic(g, nodes, n, e);
    assert Among(cycles, e);
    var c :| 0 <= c < |cycles| && e in cycles[c];
    assert IsLoop(g, cycles[c]) && cycles[c] == repairs[c].cycle;
    assert StartsAtEntry(g, nodes, cycles[c]);
    var m :| Entry(g, nodes, m, cycles[c][0]);
    LoopReaches(g, cycles[c], e);
    EntryUnique(g, nodes, m, cycles[c][0], n, e);
    assert Repairs(byId, nodes[at].id, replicaId, repairs[c]) && FirstYoungest(byId, repairs[c]);
    var f := RepairIsFirstYoungest(byId, nodes[at].id, replicaId, repairs[c]);
    OneFirstYoungest(byId, e, k, id, f, repairs[c].itemId);
  }

  lemma EntryIsCyclic(g: map<Id, Id>, nodes: seq<CycleNode>, n: int, e: Id)
    requires Entry(g, nodes, n, e)
    ensures OnCycle(g, e)
  {
  }

  lemma LoopReaches(g: map<Id, Id>, c: seq<Id>, e: Id)
    requires IsLoop(g, c) && e in c
    ensures Above(g, e, c[0])
  {
    var j :| 0 <= j < |c| && c[j] == e;
    var _ := LoopMeets(g, c, 0, j);
  }
}
