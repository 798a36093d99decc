/**
 Pre-order listings of a forest with ordered children lists and collapsed nodes.
 */
module PreOrder {
  import opened TreeTheory

  /** A parent map and, for some nodes, the ordered list of the children that are shown. */
  datatype Shape = Shape(parents: map<Id, Id>, kids: map<Id, seq<Id>>)

  datatype Row = Row(id: Id, depth: nat)

  function KidsOf(sh: Shape, p: Id): seq<Id> {
    if p in sh.kids then sh.kids[p] else []
  }

  ghost predicate WellShaped(sh: Shape) {
    && Forest(sh.parents)
    && (forall p, i :: 0 <= i < |KidsOf(sh, p)| ==> IsKid(sh, p, KidsOf(sh, p)[i]))
    && (forall p, i, j :: 0 <= i < j < |KidsOf(sh, p)| ==> KidsOf(sh, p)[i] != KidsOf(sh, p)[j])
  }

  ghost predicate IsKid(sh: Shape, p: Id, x: Id) {
    x in sh.parents && sh.parents[x] == p
  }

  ghost predicate Shown(sh: Shape, x: Id) {
    x in sh.parents && x in KidsOf(sh, sh.parents[x])
  }

  // ---------- the listing ----------

  /** Levels still possible below `p`. */
  ghost function Room(sh: Shape, p: Id): nat
    requires WellShaped(sh)
  {
    TerminalIsGrounded(sh.parents, p);
    DepthBound(sh.parents, p);
    |sh.parents| - Depth(sh.parents, p)
  }

  lemma TerminalIsGrounded(g: map<Id, Id>, p: Id)
    requires Forest(g)
    ensures Grounded(g, p)
  {
    if p !in g {
      assert Up(g, p, 0) !in g;
    }
  }

  lemma KidHasLessRoom(sh: Shape, p: Id, i: nat)
    requires WellShaped(sh) && i < |KidsOf(sh, p)|
    ensures Room(sh, KidsOf(sh, p)[i]) < Room(sh, p)
    ensures IsKid(sh, p, KidsOf(sh, p)[i])
  {
    DepthStep(sh.parents, KidsOf(sh, p)[i]);
  }

  /** The row of `x` and the rows below it. */
  ghost function RowsAt(sh: Shape, collapsed: set<Id>, x: Id, depth: nat): (rows: seq<Row>)
    requires WellShaped(sh)
    ensures |rows| > 0 && rows[0] == Row(x, depth)
    decreases Room(sh, x), |KidsOf(sh, x)| + 1
  {
    [Row(x, depth)] + if x in collapsed then [] else RowsFrom(sh, collapsed, x, 0, depth + 1)
  }

  /** The rows of the children of `p` from position `i` on. */
  ghost function RowsFrom(sh: Shape, collapsed: set<Id>, p: Id, i: nat, depth: nat): seq<Row>
    requires WellShaped(sh) && i <= |KidsOf(sh, p)|
    decreases Room(sh, p), |KidsOf(sh, p)| - i
  {
    if i == |KidsOf(sh, p)| then []
    else
      KidHasLessRoom(sh, p, i);
      RowsAt(sh, collapsed, KidsOf(sh, p)[i], depth) + RowsFrom(sh, collapsed, p, i + 1, depth)
  }

  /** Everything visible below `top`. */
  ghost function RowsBelow(sh: Shape, collapsed: set<Id>, top: Id): seq<Row>
    requires WellShaped(sh)
  {
    RowsFrom(sh, collapsed, top, 0, 0)
  }

  // ---------- which nodes are listed, and how deep ----------

  /** `id` is `k` levels below `x`, shown, and nothing collapsed stands from its parent up to `x`. */
  ghost predicate Under(sh: Shape, collapsed: set<Id>, x: Id, id: Id, k: nat) {
    && Up(sh.parents, id, k) == x
    && (forall j: nat :: j < k ==> Shown(sh, Up(sh.parents, id, j)))
    && (forall j: nat :: 0 < j <= k ==> Up(sh.parents, id, j) !in collapsed)
  }

  /** One level up, past an open shown node. */
  lemma UnderStep(sh: Shape, collapsed: set<Id>, x: Id, y: Id, id: Id, k: nat)
    requires Under(sh, collapsed, y, id, k) && Shown(sh, y) && sh.parents[y] == x && x !in collapsed
    ensures Under(sh, collapsed, x, id, k + 1)
  {
  }

  lemma UnderSelf(sh: Shape, collapsed: set<Id>, x: Id)
    ensures Under(sh, collapsed, x, x, 0)
  {
    assert Up(sh.parents, x, 0) == x;
  }

  /** Every row is one of the nodes below, at its own level. */
  lemma {:induction false} RowsAtAreUnder(sh: Shape, collapsed: set<Id>, x: Id, depth: nat, n: nat)
    requires WellShaped(sh) && n < |RowsAt(sh, collapsed, x, depth)|
    ensures var r := RowsAt(sh, collapsed, x, depth)[n];
      r.depth >= depth && Under(sh, collapsed, x, r.id, r.depth - depth)
    ensures n > 0 ==> RowsAt(sh, collapsed, x, depth)[n].depth > depth
    decreases Room(sh, x), |KidsOf(sh, x)| + 1
  {
    hide WellShaped, Room;
    if n == 0 {
      UnderSelf(sh, collapsed, x);
    } else {
      assert x !in collapsed;
      var r := RowsAt(sh, collapsed, x, depth)[n];
      assert r == RowsFrom(sh, collapsed, x, 0, depth + 1)[n - 1];
      var a := RowsFromAreUnder(sh, collapsed, x, 0, depth + 1, n - 1);
      KidIsShown(sh, x, a);
      UnderStep(sh, collapsed, x, KidsOf(sh, x)[a], r.id, r.depth - depth - 1);
    }
  }

  lemma KidIsShown(sh: Shape, p: Id, a: nat)
    requires WellShaped(sh) && a < |KidsOf(sh, p)|
    ensures IsKid(sh, p, KidsOf(sh, p)[a]) && Shown(sh, KidsOf(sh, p)[a])
  {
  }

  lemma {:induction false} RowsFromAreUnder(sh: Shape, collapsed: set<Id>, p: Id, i: nat, depth: nat, n: nat)
    returns (a: nat)
    requires WellShaped(sh) && i <= |KidsOf(sh, p)| && n < |RowsFrom(sh, collapsed, p, i, depth)|
    ensures i <= a < |KidsOf(sh, p)|
    ensures var r := RowsFrom(sh, collapsed, p, i, depth)[n];
      r.depth >= depth && Under(sh, collapsed, KidsOf(sh, p)[a], r.id, r.depth - depth)
    ensures n < |RowsAt(sh, collapsed, KidsOf(sh, p)[i], depth)| ==> a == i
    decreases Room(sh, p), |KidsOf(sh, p)| - i
  {
    hide WellShaped, Room, Under, KidsOf;
    KidHasLessRoom(sh, p, i);
    var first := RowsAt(sh, collapsed, KidsOf(sh, p)[i], depth);
    if n < |first| {
      RowsAtAreUnder(sh, collapsed, KidsOf(sh, p)[i], depth, n);
      a := i;
    } else {
      a := RowsFromAreUnder(sh, collapsed, p, i + 1, depth, n - |first|);
    }
  }

  /** Every node below has a row, at its own level. */
  lemma {:induction false} UnderHasRow(sh: Shape, collapsed: set<Id>, x: Id, id: Id, k: nat, depth: nat) returns (n: nat)
    requires WellShaped(sh) && Under(sh, collapsed, x, id, k)
    ensures n < |RowsAt(sh, collapsed, x, depth)| && RowsAt(sh, collapsed, x, depth)[n] == Row(id, depth + k)
    decreases k
  {
    if k == 0 {
      n := 0;
    } else {
      var y := Up(sh.parents, id, k - 1);
      assert Shown(sh, y) && sh.parents[y] == x;
      var a :| 0 <= a < |KidsOf(sh, x)| && KidsOf(sh, x)[a] == y;
      hide WellShaped, KidsOf;
      n := UnderHasRow(sh, collapsed, y, id, k - 1, depth + 1);
      n := RowOfKid(sh, collapsed, x, 0, a, depth + 1, n);
      n := n + 1;
    }
  }

  /** The rows of child `a` stand among the rows of the children from `i <= a` on. */
  lemma {:induction false} RowOfKid(sh: Shape, collapsed: set<Id>, p: Id, i: nat, a: nat, depth: nat, m: nat) returns (n: nat)
    requires WellShaped(sh) && i <= a < |KidsOf(sh, p)| && m < |RowsAt(sh, collapsed, KidsOf(sh, p)[a], depth)|
    ensures n < |RowsFrom(sh, collapsed, p, i, depth)|
    ensures RowsFrom(sh, collapsed, p, i, depth)[n] == RowsAt(sh, collapsed, KidsOf(sh, p)[a], depth)[m]
    decreases a - i
  {
    hide WellShaped, KidsOf, RowsAt;
    if i == a {
      n := m;
    } else {
      n := RowOfKid(sh, collapsed, p, i + 1, a, depth, m);
      n := n + |RowsAt(sh, collapsed, KidsOf(sh, p)[i], depth)|;
    }
  }

  // ---------- their order ----------

  /** Pre-order: an ancestor first; otherwise as the children on the two branches are listed. */
  ghost predicate Precedes(sh: Shape, x: Id, y: Id) {
    (x != y && Above(sh.parents, x, y)) || exists p, a: nat, b: nat :: Branches(sh, p, a, b, x, y)
  }

  ghost predicate Branches(sh: Shape, p: Id, a: nat, b: nat, x: Id, y: Id) {
    && a < b < |KidsOf(sh, p)|
    && Above(sh.parents, KidsOf(sh, p)[a], x) && Above(sh.parents, KidsOf(sh, p)[b], y)
  }

  lemma UnderIsAbove(sh: Shape, collapsed: set<Id>, x: Id, id: Id, k: nat)
    requires Under(sh, collapsed, x, id, k)
    ensures Above(sh.parents, x, id)
  {
  }

  /** Two different children of one node are above different nodes. */
  lemma KidsPart(sh: Shape, p: Id, a: nat, b: nat, x: Id)
    requires WellShaped(sh) && a < b < |KidsOf(sh, p)|
    ensures !(Above(sh.parents, KidsOf(sh, p)[a], x) && Above(sh.parents, KidsOf(sh, p)[b], x))
  {
    var g, u, v := sh.parents, KidsOf(sh, p)[a], KidsOf(sh, p)[b];
    assert IsKid(sh, p, u) && IsKid(sh, p, v) && u != v;
    hide WellShaped, KidsOf;
    if Above(g, u, x) && Above(g, v, x) {
      var i: nat :| Up(g, x, i) == u;
      var j: nat :| Up(g, x, j) == v;
      if i <= j {
        MeetTwice(sh, p, x, i, j);
      } else {
        MeetTwice(sh, p, x, j, i);
      }
      assert false;
    }
  }

  lemma MeetTwice(sh: Shape, p: Id, x: Id, i: nat, j: nat)
    requires WellShaped(sh) && i <= j
    requires IsKid(sh, p, Up(sh.parents, x, i)) && IsKid(sh, p, Up(sh.parents, x, j))
    ensures i == j
  {
    var g := sh.parents;
    var u, v := Up(g, x, i), Up(g, x, j);
    if i < j {
      UpAdd(g, x, i, j - i);
      assert Above(g, v, u);
      TerminalIsGrounded(g, u);
      AboveDepth(g, v, u);
      DepthStep(g, u);
      DepthStep(g, v);
      assert u == v;
      assert Up(g, u, j - i) == u;
      assert OnCycle(g, u);
      ForestIsAcyclic(g);
      assert false;
    }
  }

  /** A node never precedes itself, nor one of its ancestors. */
  lemma PrecedesIsNotAbove(sh: Shape, x: Id, y: Id)
    requires WellShaped(sh) && Precedes(sh, x, y)
    ensures x != y && !Above(sh.parents, y, x)
  {
    var g := sh.parents;
    TerminalIsGrounded(g, x);
    TerminalIsGrounded(g, y);
    if x != y && Above(g, x, y) {
      AboveDepth(g, x, y);
      if Above(g, y, x) {
        AboveDepth(g, y, x);
        assert false;
      }
    } else {
      var p, a: nat, b: nat :| Branches(sh, p, a, b, x, y);
      KidsPart(sh, p, a, b, x);
      if Above(g, y, x) {
        AboveTransitive(g, KidsOf(sh, p)[b], y, x);
        assert false;
      }
      assert Up(g, x, 0) == x;
      assert Above(g, x, x);
    }
  }

  /** The rows stand in pre-order. */
  lemma {:induction false} RowsAtInOrder(sh: Shape, collapsed: set<Id>, x: Id, depth: nat, m: nat, n: nat)
    requires WellShaped(sh) && m < n < |RowsAt(sh, collapsed, x, depth)|
    ensures Precedes(sh, RowsAt(sh, collapsed, x, depth)[m].id, RowsAt(sh, collapsed, x, depth)[n].id)
    decreases Room(sh, x), |KidsOf(sh, x)| + 1
  {
    hide WellShaped, Room, KidsOf, Precedes;
    if m == 0 {
      RowsAtAreUnder(sh, collapsed, x, depth, n);
      var r := RowsAt(sh, collapsed, x, depth)[n];
      DeeperPrecedes(sh, collapsed, x, r.id, r.depth - depth);
    } else {
      RowsFromInOrder(sh, collapsed, x, 0, depth + 1, m - 1, n - 1);
    }
  }

  lemma DeeperPrecedes(sh: Shape, collapsed: set<Id>, x: Id, id: Id, k: nat)
    requires WellShaped(sh) && Under(sh, collapsed, x, id, k) && k > 0
    ensures Precedes(sh, x, id)
  {
    UnderIsAbove(sh, collapsed, x, id, k);
    if x == id {
      assert Up(sh.parents, id, 0) == id && Shown(sh, Up(sh.parents, id, 0));
      assert OnCycle(sh.parents, id);
      ForestIsAcyclic(sh.parents);
      assert false;
    }
  }

  lemma {:induction false} RowsFromInOrder(sh: Shape, collapsed: set<Id>, p: Id, i: nat, depth: nat, m: nat, n: nat)
    requires WellShaped(sh) && i <= |KidsOf(sh, p)| && m < n < |RowsFrom(sh, collapsed, p, i, depth)|
    ensures Precedes(sh, RowsFrom(sh, collapsed, p, i, depth)[m].id, RowsFrom(sh, collapsed, p, i, depth)[n].id)
    decreases Room(sh, p), |KidsOf(sh, p)| - i
  {
    hide WellShaped, Room, KidsOf, Precedes, RowsAt, Under;
    KidHasLessRoom(sh, p, i);
    var first := RowsAt(sh, collapsed, KidsOf(sh, p)[i], depth);
    if n < |first| {
      RowsAtInOrder(sh, collapsed, KidsOf(sh, p)[i], depth, m, n);
    } else if m < |first| {
      RowsAtAreUnder(sh, collapsed, KidsOf(sh, p)[i], depth, m);
      var b := RowsFromAreUnder(sh, collapsed, p, i + 1, depth, n - |first|);
      var rm := first[m];
      var rn := RowsFrom(sh, collapsed, p, i + 1, depth)[n - |first|];
      BranchesPrecede(sh, collapsed, p, i, b, rm.id, rn.id, rm.depth - depth, rn.depth - depth);
    } else {
      RowsFromInOrder(sh, collapsed, p, i + 1, depth, m - |first|, n - |first|);
    }
  }

  lemma BranchesPrecede(sh: Shape, collapsed: set<Id>, p: Id, a: nat, b: nat, x: Id, y: Id, j: nat, k: nat)
    requires a < b < |KidsOf(sh, p)|
    requires Under(sh, collapsed, KidsOf(sh, p)[a], x, j) && Under(sh, collapsed, KidsOf(sh, p)[b], y, k)
    ensures Precedes(sh, x, y)
  {
    UnderIsAbove(sh, collapsed, KidsOf(sh, p)[a], x, j);
    UnderIsAbove(sh, collapsed, KidsOf(sh, p)[b], y, k);
    assert Branches(sh, p, a, b, x, y);
  }

  // ---------- the listing below one node ----------

  /** `id` is `k + 1` levels below `top`, shown, with nothing collapsed in between. */
  ghost predicate Exposed(sh: Shape, collapsed: set<Id>, top: Id, id: Id, k: nat) {
    && Up(sh.parents, id, k + 1) == top
    && (forall j: nat :: j <= k ==> Shown(sh, Up(sh.parents, id, j)))
    && (forall j: nat :: 0 < j <= k ==> Up(sh.parents, id, j) !in collapsed)
  }

  lemma RowIsExposed(sh: Shape, collapsed: set<Id>, top: Id, n: nat)
    requires WellShaped(sh) && n < |RowsBelow(sh, collapsed, top)|
    ensures var r := RowsBelow(sh, collapsed, top)[n]; Exposed(sh, collapsed, top, r.id, r.depth)
  {
    var a := RowsFromAreUnder(sh, collapsed, top, 0, 0, n);
    KidIsShown(sh, top, a);
  }

  lemma ExposedHasRow(sh: Shape, collapsed: set<Id>, top: Id, id: Id, k: nat) returns (n: nat)
    requires WellShaped(sh) && Exposed(sh, collapsed, top, id, k)
    ensures n < |RowsBelow(sh, collapsed, top)| && RowsBelow(sh, collapsed, top)[n] == Row(id, k)
  {
    var y := Up(sh.parents, id, k);
    assert Shown(sh, y) && sh.parents[y] == top;
    var a :| 0 <= a < |KidsOf(sh, top)| && KidsOf(sh, top)[a] == y;
    n := UnderHasRow(sh, collapsed, y, id, k, 0);
    n := RowOfKid(sh, collapsed, top, 0, a, 0, n);
  }

  lemma RowsInOrder(sh: Shape, collapsed: set<Id>, top: Id, m: nat, n: nat)
    requires WellShaped(sh) && m < n < |RowsBelow(sh, collapsed, top)|
    ensures Precedes(sh, RowsBelow(sh, collapsed, top)[m].id, RowsBelow(sh, collapsed, top)[n].id)
    ensures RowsBelow(sh, collapsed, top)[m].id != RowsBelow(sh, collapsed, top)[n].id
  {
    RowsFromInOrder(sh, collapsed, top, 0, 0, m, n);
    PrecedesIsNotAbove(sh, RowsBelow(sh, collapsed, top)[m].id, RowsBelow(sh, collapsed, top)[n].id);
  }

  // ---------- listing with an explicit stack ----------

  /** The rows a stack still stands for; the last entry is the next one. */
  ghost function Pending(sh: Shape, collapsed: set<Id>, stack: seq<Row>): seq<Row>
    requires WellShaped(sh)
  {
    if stack == [] then []
    else
      var n := |stack| - 1;
      RowsAt(sh, collapsed, stack[n].id, stack[n].depth) + Pending(sh, collapsed, stack[..n])
  }

  /** The children of `p` from position `i` on, last one first. */
  function Reversed(kids: seq<Id>, i: nat, depth: nat): (r: seq<Row>)
    requires i <= |kids|
    ensures |r| == |kids| - i
    decreases |kids| - i
  {
    if i == |kids| then [] else Reversed(kids, i + 1, depth) + [Row(kids[i], depth)]
  }

  /** Pushing a node's children in reverse makes their rows come next. */
  lemma {:induction false} PendingKids(sh: Shape, collapsed: set<Id>, stack: seq<Row>, p: Id, i: nat, depth: nat)
    requires WellShaped(sh) && i <= |KidsOf(sh, p)|
    ensures Pending(sh, collapsed, stack + Reversed(KidsOf(sh, p), i, depth))
         == RowsFrom(sh, collapsed, p, i, depth) + Pending(sh, collapsed, stack)
    decreases |KidsOf(sh, p)| - i
  {
    hide WellShaped, KidsOf, RowsAt;
    var kids := KidsOf(sh, p);
    if i == |kids| {
      assert stack + Reversed(kids, i, depth) == stack;
    } else {
      var s := stack + Reversed(kids, i + 1, depth);
      assert stack + Reversed(kids, i, depth) == s + [Row(kids[i], depth)];
      PendingPush(sh, collapsed, s, kids[i], depth);
      PendingKids(sh, collapsed, stack, p, i + 1, depth);
    }
  }

  lemma PendingPush(sh: Shape, collapsed: set<Id>, stack: seq<Row>, x: Id, depth: nat)
    requires WellShaped(sh)
    ensures Pending(sh, collapsed, stack + [Row(x, depth)])
         == RowsAt(sh, collapsed, x, depth) + Pending(sh, collapsed, stack)
  {
    assert (stack + [Row(x, depth)])[..|stack|] == stack;
  }

  method PushKids(kids: seq<Id>, depth: nat, stack0: seq<Row>) returns (stack: seq<Row>)
    ensures stack == stack0 + Reversed(kids, 0, depth)
  {
    stack := stack0;
    var i := |kids|;
    while i > 0
      invariant 0 <= i <= |kids| && stack == stack0 + Reversed(kids, i, depth)
    {
      i := i - 1;
      stack := stack + [Row(kids[i], depth)];
    }
  }

  /** One turn of the traversal: the last entry becomes a row and its children take its place. */
  method Visit(kids: map<Id, seq<Id>>, collapsed: set<Id>, stack0: seq<Row>, ghost sh: Shape)
    returns (row: Row, stack: seq<Row>)
    requires WellShaped(sh) && sh.kids == kids && stack0 != []
    ensures Pending(sh, collapsed, stack0) == [row] + Pending(sh, collapsed, stack)
  {
    row := stack0[|stack0| - 1];
    stack := stack0[..|stack0| - 1];
    ghost var rest := stack;
    if row.id !in collapsed {
      stack := PushKids(if row.id in kids then kids[row.id] else [], row.depth + 1, stack);
      PendingKids(sh, collapsed, rest, row.id, 0, row.depth + 1);
    }
  }

  method Traverse(kids: map<Id, seq<Id>>, top: Id, collapsed: set<Id>, ghost sh: Shape) returns (rows: seq<Row>)
    requires WellShaped(sh) && sh.kids == kids
    ensures rows == RowsBelow(sh, collapsed, top)
  {
    rows := [];
    var stack := PushKids(if top in kids then kids[top] else [], 0, []);
    PendingKids(sh, collapsed, [], top, 0, 0);
    assert [] + Reversed(KidsOf(sh, top), 0, 0) == stack;
    while stack != []
      invariant rows + Pending(sh, collapsed, stack) == RowsBelow(sh, collapsed, top)
      decreases |Pending(sh, collapsed, stack)|
    {
      var row;
      row, stack := Visit(kids, collapsed, stack, sh);
      rows := rows + [row];
    }
  }
}
