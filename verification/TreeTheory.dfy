/**
 Parent maps as functional graphs.

 A parent map `g` sends each of its keys to one parent. Every id outside
 `g.Keys` is terminal, which is how the document root and a missing parent are
 represented. A well-formed outline is a map in which every walk towards the
 parents leaves `g.Keys`.
 */
module TreeTheory {
  import opened Collections

  // Only equality and the total order of ids matter, so a number stands for the text.
  datatype Id = Id(n: nat)

  /** The node reached after `k` parent steps; a terminal node stays put. */
  ghost function Up(g: map<Id, Id>, id: Id, k: nat): Id {
    if k == 0 then id
    else
      var q := Up(g, id, k - 1);
      if q in g then g[q] else q
  }

  ghost predicate OnCycle(g: map<Id, Id>, id: Id) {
    id in g && exists k: nat :: k > 0 && Up(g, id, k) == id
  }

  /** The walk from `id` leaves the map. */
  ghost predicate Grounded(g: map<Id, Id>, id: Id) {
    exists k: nat :: Up(g, id, k) !in g
  }

  ghost predicate Acyclic(g: map<Id, Id>) {
    forall id :: id in g ==> !OnCycle(g, id)
  }

  ghost predicate Forest(g: map<Id, Id>) {
    forall id :: id in g ==> Grounded(g, id)
  }

  /** Every parent is a node of the map or the root, and the root is terminal. */
  ghost predicate ClosedUnder(g: map<Id, Id>, root: Id) {
    root !in g && forall id :: id in g ==> g[id] in g || g[id] == root
  }

  /** `a` is `id` itself or one of its ancestors. */
  ghost predicate Above(g: map<Id, Id>, a: Id, id: Id) {
    exists k: nat :: Up(g, id, k) == a
  }

  /** `m` is the smallest id of the cycle it lies on. */
  ghost predicate CycleMin(g: map<Id, Id>, m: Id) {
    OnCycle(g, m) && forall k: nat :: m.n <= Up(g, m, k).n
  }

  /** Redirect every key in `cut` to `root`. */
  ghost function Cut(g: map<Id, Id>, cut: set<Id>, root: Id): map<Id, Id> {
    map id | id in g :: if id in cut then root else g[id]
  }

  // ---------- walking ----------

  lemma {:induction false} UpAdd(g: map<Id, Id>, id: Id, a: nat, b: nat)
    ensures Up(g, id, a + b) == Up(g, Up(g, id, a), b)
  {
    if b > 0 {
      UpAdd(g, id, a, b - 1);
    }
  }

  lemma UpStep(g: map<Id, Id>, id: Id, k: nat)
    requires id in g
    ensures Up(g, id, k + 1) == Up(g, g[id], k)
  {
    assert Up(g, id, 1) == g[id] by {
      assert Up(g, id, 0) == id;
    }
    UpAdd(g, id, 1, k);
  }

  lemma {:induction false} UpTerminal(g: map<Id, Id>, id: Id, a: nat, b: nat)
    requires a <= b && Up(g, id, a) !in g
    ensures Up(g, id, b) == Up(g, id, a)
  {
    if a < b {
      UpTerminal(g, id, a, b - 1);
    }
  }

  /** A walk that stays inside the map up to step `k` was inside at every earlier step. */
  lemma UpInside(g: map<Id, Id>, id: Id, a: nat, b: nat)
    requires a <= b && Up(g, id, b) in g
    ensures Up(g, id, a) in g
  {
    if Up(g, id, a) !in g {
      UpTerminal(g, id, a, b);
    }
  }

  lemma {:induction false} UpMultiple(g: map<Id, Id>, id: Id, p: nat, n: nat)
    requires Up(g, id, p) == id
    ensures Up(g, id, n * p) == id
  {
    if n > 0 {
      UpMultiple(g, id, p, n - 1);
      UpAdd(g, id, (n - 1) * p, p);
      assert (n - 1) * p + p == n * p;
    } else {
      assert n * p == 0;
    }
  }

  // ---------- cycles ----------

  /** Every node met on a cycle lies on it, and the walk from it comes back. */
  lemma CycleOrbit(g: map<Id, Id>, id: Id, k: nat) returns (back: nat)
    requires OnCycle(g, id)
    ensures OnCycle(g, Up(g, id, k))
    ensures Up(g, Up(g, id, k), back) == id
  {
    var p: nat :| p > 0 && Up(g, id, p) == id;
    UpMultiple(g, id, p, k + 1);
    assert (k + 1) * p >= k + 1 by {
      MulAtLeast(k + 1, p);
    }
    back := (k + 1) * p - k;
    UpAdd(g, id, k, back);
    var y := Up(g, id, k);
    UpAdd(g, y, back, k);
    assert Up(g, y, back + k) == y;
    UpInside(g, id, k, (k + 1) * p);
  }

  lemma MulAtLeast(n: nat, p: nat)
    requires p > 0
    ensures n * p >= n
  {
    if p > 1 {
      MulAtLeast(n, p - 1);
      assert n * p == n * (p - 1) + n;
    }
  }

  lemma CycleIsNotGrounded(g: map<Id, Id>, id: Id, k: nat)
    requires OnCycle(g, Up(g, id, k))
    ensures !Grounded(g, id)
  {
    forall j: nat
      ensures Up(g, id, j) in g
    {
      if j <= k {
        UpInside(g, id, j, k);
      } else {
        var y := Up(g, id, k);
        UpAdd(g, id, k, j - k);
        var _ := CycleOrbit(g, y, j - k);
      }
    }
  }

  /** Pigeonhole: a walk either leaves the map or runs into a cycle. */
  lemma WalkSettles(g: map<Id, Id>, id: Id) returns (k: nat)
    ensures Up(g, id, k) !in g || OnCycle(g, Up(g, id, k))
  {
    ghost var seen: set<Id> := {};
    k := 0;
    while Up(g, id, k) in g && Up(g, id, k) !in seen
      invariant seen == set j: nat | j < k :: Up(g, id, j)
      invariant seen <= g.Keys
      decreases |g.Keys - seen|
    {
      assert g.Keys - (seen + {Up(g, id, k)}) < g.Keys - seen by {
        assert Up(g, id, k) in g.Keys - seen;
      }
      StrictSubsetSize(g.Keys - (seen + {Up(g, id, k)}), g.Keys - seen);
      seen := seen + {Up(g, id, k)};
      k := k + 1;
    }
    if Up(g, id, k) in g {
      var j: nat :| j < k && Up(g, id, j) == Up(g, id, k);
      var y := Up(g, id, k);
      UpAdd(g, id, j, k - j);
      assert Up(g, y, k - j) == y;
    }
  }

  lemma AcyclicIsForest(g: map<Id, Id>)
    requires Acyclic(g)
    ensures Forest(g)
  {
    forall id | id in g
      ensures Grounded(g, id)
    {
      var k := WalkSettles(g, id);
    }
  }

  lemma ForestIsAcyclic(g: map<Id, Id>)
    requires Forest(g)
    ensures Acyclic(g)
  {
    forall id | id in g
      ensures !OnCycle(g, id)
    {
      if OnCycle(g, id) {
        assert Up(g, id, 0) == id;
        CycleIsNotGrounded(g, id, 0);
      }
    }
  }

  /** In a closed forest every walk ends at the root. */
  lemma ForestReachesRoot(g: map<Id, Id>, root: Id, id: Id) returns (k: nat)
    requires ClosedUnder(g, root) && Forest(g) && id in g
    ensures Up(g, id, k) == root
  {
    k :| Up(g, id, k) !in g;
    StaysClosed(g, root, id, k);
  }

  lemma {:induction false} StaysClosed(g: map<Id, Id>, root: Id, id: Id, k: nat)
    requires ClosedUnder(g, root) && (id in g || id == root)
    ensures Up(g, id, k) in g || Up(g, id, k) == root
  {
    if k > 0 {
      StaysClosed(g, root, id, k - 1);
    }
  }

  lemma CycleHasMin(g: map<Id, Id>, id: Id) returns (k: nat)
    requires OnCycle(g, id)
    ensures CycleMin(g, Up(g, id, k))
  {
    var p: nat :| p > 0 && Up(g, id, p) == id;
    k := LeastOnWalk(g, id, p);
    var m := Up(g, id, k);
    var _ := CycleOrbit(g, id, k);
    forall j: nat
      ensures m.n <= Up(g, m, j).n
    {
      UpAdd(g, id, k, j);
      UpModulo(g, id, p, k + j);
      assert Up(g, id, (k + j) % p) == Up(g, m, j);
    }
  }

  lemma {:induction false} LeastOnWalk(g: map<Id, Id>, id: Id, n: nat) returns (k: nat)
    requires n > 0
    ensures k < n && forall j: nat :: j < n ==> Up(g, id, k).n <= Up(g, id, j).n
  {
    k := 0;
    if n > 1 {
      k := LeastOnWalk(g, id, n - 1);
      if Up(g, id, n - 1).n < Up(g, id, k).n {
        k := n - 1;
      }
    }
  }

  lemma UpModulo(g: map<Id, Id>, id: Id, p: nat, n: nat)
    requires p > 0 && Up(g, id, p) == id
    ensures Up(g, id, n % p) == Up(g, id, n)
  {
    UpMultiple(g, id, p, n / p);
    assert n == (n / p) * p + n % p;
    UpAdd(g, id, (n / p) * p, n % p);
  }

  // ---------- cutting cycles ----------

  ghost predicate CutsEveryCycle(g: map<Id, Id>, cut: set<Id>) {
    forall id :: OnCycle(g, id) ==> exists k: nat :: Up(g, id, k) in cut
  }

  /** Cutting one node of every cycle leaves no cycle behind. */
  lemma CutIsAcyclic(g: map<Id, Id>, cut: set<Id>, root: Id)
    requires root !in g && CutsEveryCycle(g, cut)
    ensures Acyclic(Cut(g, cut, root))
  {
    forall id | id in g
      ensures !OnCycle(Cut(g, cut, root), id)
    {
      if OnCycle(Cut(g, cut, root), id) {
        CycleAvoidsCut(g, cut, root, id);
        assert false;
      }
    }
  }

  /** A cycle that survives the cut is a cycle of the original map without cut nodes. */
  lemma CycleAvoidsCut(g: map<Id, Id>, cut: set<Id>, root: Id, id: Id)
    requires root !in g && OnCycle(Cut(g, cut, root), id)
    ensures OnCycle(g, id) && forall k: nat :: Up(g, id, k) !in cut
  {
    var h := Cut(g, cut, root);
    forall j: nat
      ensures Up(h, id, j) !in cut
    {
      var _ := CycleOrbit(h, id, j);
      if Up(h, id, j) in cut {
        assert Up(h, id, j + 1) == root;
        var _ := CycleOrbit(h, id, j + 1);
        assert false;
      }
    }
    forall j: nat
      ensures Up(h, id, j) == Up(g, id, j)
    {
      UncutWalk(g, cut, root, id, j);
    }
    var p: nat :| p > 0 && Up(h, id, p) == id;
    assert Up(g, id, p) == id;
  }

  lemma {:induction false} UncutWalk(g: map<Id, Id>, cut: set<Id>, root: Id, id: Id, k: nat)
    requires forall j: nat :: j < k ==> Up(Cut(g, cut, root), id, j) !in cut
    ensures Up(Cut(g, cut, root), id, k) == Up(g, id, k)
  {
    if k > 0 {
      UncutWalk(g, cut, root, id, k - 1);
    }
  }

  // ---------- depth ----------

  ghost predicate LeavesAt(g: map<Id, Id>, id: Id, k: nat) {
    Up(g, id, k) !in g && forall j: nat :: j < k ==> Up(g, id, j) in g
  }

  lemma LeavesSomewhere(g: map<Id, Id>, id: Id)
    requires Grounded(g, id)
    ensures exists k: nat :: LeavesAt(g, id, k)
  {
    var k: nat := 0;
    var n: nat :| Up(g, id, n) !in g;
    while Up(g, id, k) in g
      invariant k <= n && forall j: nat :: j < k ==> Up(g, id, j) in g
      decreases n - k
    {
      k := k + 1;
    }
    assert LeavesAt(g, id, k);
  }

  /** Number of parent steps until the walk leaves the map. */
  ghost function Depth(g: map<Id, Id>, id: Id): (d: nat)
    requires Grounded(g, id)
    ensures LeavesAt(g, id, d)
  {
    LeavesSomewhere(g, id);
    var k: nat :| LeavesAt(g, id, k);
    k
  }

  lemma DepthUnique(g: map<Id, Id>, id: Id, k: nat)
    requires LeavesAt(g, id, k)
    ensures Grounded(g, id) && Depth(g, id) == k
  {
  }

  /** One step up is one level up. */
  lemma DepthStep(g: map<Id, Id>, id: Id)
    requires id in g && Grounded(g, id)
    ensures Grounded(g, g[id]) && Depth(g, id) == Depth(g, g[id]) + 1
  {
    var d := Depth(g, id);
    assert d > 0 by {
      assert Up(g, id, 0) == id;
    }
    forall j: nat
      ensures Up(g, g[id], j) == Up(g, id, j + 1)
    {
      UpStep(g, id, j);
    }
    assert LeavesAt(g, g[id], d - 1);
    DepthUnique(g, g[id], d - 1);
  }

  lemma {:induction false} DepthAlong(g: map<Id, Id>, id: Id, k: nat)
    requires Grounded(g, id) && k <= Depth(g, id)
    ensures Grounded(g, Up(g, id, k)) && Depth(g, Up(g, id, k)) == Depth(g, id) - k
  {
    if k > 0 {
      DepthAlong(g, id, k - 1);
      DepthStep(g, Up(g, id, k - 1));
    }
  }

  /** Distinct nodes on the way up bound the depth by the number of nodes. */
  lemma DepthBound(g: map<Id, Id>, id: Id)
    requires Grounded(g, id)
    ensures Depth(g, id) <= |g|
  {
    var d := Depth(g, id);
    DistinctWalk(g, id, d);
    SubsetSize(Walk(g, id, d), g.Keys);
  }

  ghost function Walk(g: map<Id, Id>, id: Id, n: nat): set<Id> {
    set j: nat | j < n :: Up(g, id, j)
  }

  lemma {:induction false} DistinctWalk(g: map<Id, Id>, id: Id, n: nat)
    requires Grounded(g, id) && n <= Depth(g, id)
    ensures |Walk(g, id, n)| == n
  {
    if n > 0 {
      DistinctWalk(g, id, n - 1);
      var before := Walk(g, id, n - 1);
      if Up(g, id, n - 1) in before {
        var j: nat :| j < n - 1 && Up(g, id, j) == Up(g, id, n - 1);
        DepthAlong(g, id, j);
        DepthAlong(g, id, n - 1);
      }
      WalkGrows(g, id, n - 1);
    }
  }

  lemma WalkGrows(g: map<Id, Id>, id: Id, n: nat)
    ensures Walk(g, id, n + 1) == Walk(g, id, n) + {Up(g, id, n)}
  {
  }

  // ---------- ancestors ----------

  lemma AboveStep(g: map<Id, Id>, a: Id, id: Id)
    requires id in g
    ensures Above(g, a, id) <==> a == id || Above(g, a, g[id])
  {
    if Above(g, a, id) && a != id {
      var k: nat :| Up(g, id, k) == a;
      UpStep(g, id, k - 1);
    }
    if Above(g, a, g[id]) {
      var k: nat :| Up(g, g[id], k) == a;
      UpStep(g, id, k);
    }
    if a == id {
      assert Up(g, id, 0) == a;
    }
  }

  lemma AboveTransitive(g: map<Id, Id>, a: Id, b: Id, c: Id)
    requires Above(g, a, b) && Above(g, b, c)
    ensures Above(g, a, c)
  {
    var j: nat :| Up(g, b, j) == a;
    var k: nat :| Up(g, c, k) == b;
    UpAdd(g, c, k, j);
  }

  /** In a forest an ancestor is strictly less deep than its proper descendants. */
  lemma AboveDepth(g: map<Id, Id>, a: Id, id: Id)
    requires Grounded(g, id) && Above(g, a, id)
    ensures Grounded(g, a) && Depth(g, a) <= Depth(g, id)
    ensures a != id ==> Depth(g, a) < Depth(g, id)
  {
    var k: nat :| Up(g, id, k) == a;
    var d := Depth(g, id);
    if k > d {
      UpTerminal(g, id, d, k);
      DepthAlong(g, id, d);
    } else {
      DepthAlong(g, id, k);
    }
  }

  // ---------- regrafting ----------

  /** A walk that avoids `x` does not notice that `x` has a new parent. */
  lemma {:induction false} SameWalk(g: map<Id, Id>, x: Id, y: Id, id: Id, k: nat)
    requires forall j: nat :: j < k ==> Up(g, id, j) != x
    ensures Up(g[x := y], id, k) == Up(g, id, k)
  {
    if k > 0 {
      SameWalk(g, x, y, id, k - 1);
    }
  }

  lemma UnrelatedWalk(g: map<Id, Id>, x: Id, y: Id, id: Id)
    requires Grounded(g, id) && !Above(g, x, id)
    ensures Grounded(g[x := y], id)
  {
    var k: nat :| Up(g, id, k) !in g;
    SameWalk(g, x, y, id, k);
    assert Up(g[x := y], id, k) !in g[x := y];
  }

  lemma FirstMeeting(g: map<Id, Id>, x: Id, id: Id) returns (k: nat)
    requires Above(g, x, id)
    ensures Up(g, id, k) == x && forall j: nat :: j < k ==> Up(g, id, j) != x
  {
    var n: nat :| Up(g, id, n) == x;
    k := 0;
    while Up(g, id, k) != x
      invariant k <= n && forall j: nat :: j < k ==> Up(g, id, j) != x
      decreases n - k
    {
      k := k + 1;
    }
  }

  /** Hanging `x` under a node outside its own subtree keeps every walk finite. */
  lemma RegraftForest(g: map<Id, Id>, root: Id, x: Id, y: Id)
    requires ClosedUnder(g, root) && Forest(g)
    requires x != root && (y in g || y == root) && y != x && !Above(g, x, y)
    ensures ClosedUnder(g[x := y], root) && Forest(g[x := y])
  {
    var h := g[x := y];
    assert Grounded(g, y) by {
      assert y in g || Up(g, y, 0) !in g;
    }
    UnrelatedWalk(g, x, y, y);
    forall id | id in h
      ensures Grounded(h, id)
    {
      if Above(g, x, id) || id == x {
        assert id == x ==> Up(g, id, 0) == x;
        var k := FirstMeeting(g, x, id);
        SameWalk(g, x, y, id, k);
        assert Up(h, id, k + 1) == y;
        var n: nat :| Up(h, y, n) !in h;
        UpAdd(h, id, k + 1, n);
      } else {
        UnrelatedWalk(g, x, y, id);
      }
    }
  }
}
