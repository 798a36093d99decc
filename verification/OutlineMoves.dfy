/**
 What the structural commands do to the outline, stated on the document before
 and after: which list an item leaves, which gap it enters, who may host it.
 */
module OutlineMoves {
  import opened Collections
  import opened TreeTheory
  import opened Siblings
  import opened EffectiveTree
  import opened OutlineModel

  /** Position of the first `x`, or -1. */
  function IndexIn(s: seq<Id>, x: Id): (k: int)
    ensures -1 <= k < |s|
    ensures k >= 0 ==> s[k] == x
    ensures k < 0 <==> x !in s
  {
    if s == [] then -1
    else if s[0] == x then 0
    else
      var k := IndexIn(s[1..], x);
      if k < 0 then -1 else k + 1
  }

  /** The siblings around gap `c` have the same rank, so no rank fits between them. */
  predicate Tie(s: seq<Sibling>, c: nat) {
    0 < c < |s| && s[c - 1].rank == s[c].rank
  }

  /** The rank that gap `c` asks for; nothing when `rankBetween` throws. */
  method RankAt(s: seq<Sibling>, c: nat) returns (r: Option<Rank>)
    requires c <= |s|
    ensures r.Some? ==> Fits(s, c, r.value)
    ensures Sorted(s) ==> (r.None? <==> Tie(s, c))
  {
    var lower := if c > 0 then Some(s[c - 1].rank) else None;
    var upper := if c < |s| then Some(s[c].rank) else None;
    r := RankBetween(lower, upper);
  }

  /** What placement claims assume: nothing recovered, a marked root, a shown item. */
  ghost predicate Ready(items: Items, root: Id, id: Id) {
    && Clean(items, root) && Live(items, root, id)
    && root in items && items[root].parentId == ROOT_PARENT_SENTINEL
    && ROOT_PARENT_SENTINEL !in items
  }

  // ---------- who is listed where ----------

  lemma ListedAsKid(items: Items, root: Id, p: Id, x: Id)
    ensures x in ChildIds(items, root, p) <==> Live(items, root, x) && EdgesOf(items, root)[x] == p
  {
    var s := Children(items, root, p);
    if x in ChildIds(items, root, p) {
      var i :| 0 <= i < |s| && s[i].id == x;
      assert s[i] in Members(s);
      KidsMembers(items, root, p, s[i]);
    }
    if Live(items, root, x) && EdgesOf(items, root)[x] == p {
      var e := Sibling(x, items[x].rank);
      KidsMembers(items, root, p, e);
      assert e in Members(s);
      var i :| 0 <= i < |s| && s[i] == e;
      assert ChildIds(items, root, p)[i] == x;
    }
  }

  lemma ListedOnce(items: Items, root: Id, p: Id, i: nat, j: nat)
    requires i < j < |Children(items, root, p)|
    ensures Children(items, root, p)[i].id != Children(items, root, p)[j].id
  {
    var s := Children(items, root, p);
    assert s[i] in Members(s) && s[j] in Members(s);
    KidsMembers(items, root, p, s[i]);
    KidsMembers(items, root, p, s[j]);
    assert Before(s[i], s[j]);
  }

  // ---------- who may host a moved item ----------

  lemma LiveParent(items: Items, root: Id, x: Id)
    requires Clean(items, root) && Live(items, root, x)
    ensures var p := items[x].parentId;
      EdgesOf(items, root)[x] == p && p in items && (p == root || Live(items, root, p))
  {
    CleanMeansRaw(items, root);
    DeletedIsInherited(RawOf(items), root, x);
  }

  lemma AncestorCanHost(items: Items, root: Id, x: Id, y: Id)
    requires Clean(items, root) && Live(items, root, x) && root in items && root != ROOT_PARENT_SENTINEL
    requires Live(items, root, y) || y == root
    requires y != ROOT_PARENT_SENTINEL
    requires y != x && Above(EdgesOf(items, root), y, x)
    ensures CanHost(items, root, x, y)
  {
    var g := EdgesOf(items, root);
    CleanMeansRaw(items, root);
    if Above(g, x, y) {
      AboveDepth(g, y, x);
      AboveDepth(g, x, y);
      assert false;
    }
  }

  /** The parent, and the parent's parent, may host an item. */
  lemma ParentsCanHost(items: Items, root: Id, x: Id)
    requires Clean(items, root) && Live(items, root, x) && root in items
    requires ROOT_PARENT_SENTINEL !in items
    ensures var p := items[x].parentId;
      CanHost(items, root, x, p) && (p != root ==> CanHost(items, root, x, items[p].parentId))
  {
    var g := EdgesOf(items, root);
    var p := items[x].parentId;
    CleanMeansRaw(items, root);
    LiveParent(items, root, x);
    AboveStep(g, p, x);
    AboveStepSelf(g, p);
    DepthStep(g, x);
    AncestorCanHost(items, root, x, p);
    if p != root {
      var q := items[p].parentId;
      LiveParent(items, root, p);
      AboveStep(g, q, p);
      AboveStepSelf(g, q);
      AboveStep(g, q, x);
      DepthStep(g, p);
      AncestorCanHost(items, root, x, q);
    }
  }

  lemma AboveStepSelf(g: map<Id, Id>, id: Id)
    ensures Above(g, id, id)
  {
    assert Up(g, id, 0) == id;
  }

  /** A sibling may host an item. */
  lemma SiblingCanHost(items: Items, root: Id, x: Id, y: Id)
    requires Clean(items, root) && Live(items, root, x) && Live(items, root, y) && x != y
    requires items[x].parentId == items[y].parentId && ROOT_PARENT_SENTINEL !in items
    ensures CanHost(items, root, x, y)
  {
    var g := EdgesOf(items, root);
    CleanMeansRaw(items, root);
    LiveParent(items, root, x);
    if Above(g, x, y) {
      AboveStep(g, x, y);
      DepthStep(g, y);
      AboveDepth(g, x, g[y]);
      DepthStep(g, x);
      assert false;
    }
  }

  // ---------- the effect of a command ----------

  /**
   One placement write took `x` to the gap before position `c` of the children of
   `to`: nothing is recovered, one effective parent changed, every list is as
   intended, the same items are shown, and no other register was touched.
   */
  ghost predicate MovedInto(before: Items, after: Items, root: Id, x: Id, to: Id, c: nat) {
    && x in before && x in after
    && after == before[x := before[x].(parentId := to, rank := after[x].rank)]
    && Clean(after, root)
    && EdgesOf(after, root) == EdgesOf(before, root)[x := to]
    && (forall id :: Live(after, root, id) <==> Live(before, root, id))
    && Relisted(before, after, root, x, to, c)
  }

  function Moved(items: Items, x: Id, y: Id, r: Rank): Items
    requires x in items
  {
    items[x := items[x].(parentId := y, rank := r)]
  }

  lemma MoveReplaces(items: Items, x: Id, y: Id, r: Rank)
    requires x in items
    ensures Replaced(items, Moved(items, x, y, r), x, y, r)
    ensures Moved(items, x, y, r) == items[x := items[x].(parentId := y, rank := Moved(items, x, y, r)[x].rank)]
  {
  }

  lemma MoveLands(items: Items, root: Id, x: Id, y: Id, r: Rank, c: nat)
    requires Clean(items, root) && Live(items, root, x) && CanHost(items, root, x, y)
    requires Fits(Children(items, root, y), c, r)
    ensures MovedInto(items, Moved(items, x, y, r), root, x, y, c)
  {
    MoveReplaces(items, x, y, r);
    ReplacedEdges(items, Moved(items, x, y, r), root, x, y, r);
    ReplacedLists(items, Moved(items, x, y, r), root, x, y, r, c);
    ReplacedShows(items, Moved(items, x, y, r), root, x, y, r);
  }

  lemma ReplacedShows(before: Items, after: Items, root: Id, x: Id, y: Id, r: Rank)
    requires Clean(before, root) && Replaced(before, after, x, y, r) && CanHost(before, root, x, y)
    ensures forall id :: Live(after, root, id) <==> Live(before, root, id) || id == x
  {
    forall id
      ensures Live(after, root, id) <==> Live(before, root, id) || id == x
    {
      ReplacedLive(before, after, root, x, y, r, id);
    }
  }

  /** A new item entered the gap before position `c` of the children of `to`. */
  ghost predicate InsertedInto(before: Items, after: Items, root: Id, x: Id, to: Id, c: nat) {
    && x !in before && x in after
    && after == before[x := Item(to, after[x].rank, false, "", false)]
    && Clean(after, root)
    && EdgesOf(after, root) == EdgesOf(before, root)[x := to]
    && (forall id :: Live(after, root, id) <==> Live(before, root, id) || id == x)
    && Relisted(before, after, root, x, to, c)
  }

  ghost predicate Unreferenced(items: Items, x: Id) {
    x !in items && forall id :: id in items ==> items[id].parentId != x
  }

  function Inserted(items: Items, x: Id, y: Id, r: Rank): Items {
    items[x := Item(y, r, false, "", false)]
  }

  lemma InsertReplaces(items: Items, x: Id, y: Id, r: Rank)
    requires Unreferenced(items, x)
    ensures Replaced(items, Inserted(items, x, y, r), x, y, r)
    ensures Inserted(items, x, y, r) == items[x := Item(y, Inserted(items, x, y, r)[x].rank, false, "", false)]
  {
  }

  lemma InsertLands(items: Items, root: Id, x: Id, y: Id, r: Rank, c: nat)
    requires Clean(items, root) && Unreferenced(items, x) && CanHost(items, root, x, y)
    requires Fits(Children(items, root, y), c, r)
    ensures InsertedInto(items, Inserted(items, x, y, r), root, x, y, c)
  {
    InsertReplaces(items, x, y, r);
    ReplacedEdges(items, Inserted(items, x, y, r), root, x, y, r);
    ReplacedLists(items, Inserted(items, x, y, r), root, x, y, r, c);
    ReplacedShows(items, Inserted(items, x, y, r), root, x, y, r);
  }

  // ---------- lists the user sees ----------

  ghost predicate AllDifferent(s: seq<Id>) {
    forall i, j :: 0 <= i < j < |s| ==> s[i] != s[j]
  }

  lemma WithoutAround(a: seq<Id>, x: Id, b: seq<Id>)
    requires x !in a && x !in b
    ensures Without(a + [x] + b, x) == a + b
  {
    assert Without([x], x) == [];
    hide Without;
    WithoutConcat(a + [x], b, x);
    WithoutConcat(a, [x], x);
    WithoutAbsent(a, x);
    WithoutAbsent(b, x);
    assert a + [] == a;
  }

  lemma OthersDiffer(s: seq<Id>, k: nat)
    requires k < |s| && AllDifferent(s)
    ensures s[k] !in s[..k] && s[k] !in s[k + 1..]
  {
  }

  /** Entering the gap two places on swaps an item with its next sibling. */
  lemma GapSwapsDown(s: seq<Id>, k: nat)
    requires k + 1 < |s| && AllDifferent(s)
    ensures IntoGap(s, s[k], k + 2) == s[k := s[k + 1]][k + 1 := s[k]]
  {
    var x := s[k];
    OthersDiffer(s, k);
    hide AllDifferent, Without;
    assert s[..k + 2] == s[..k] + [x] + [s[k + 1]];
    assert s[k + 1] == s[k + 1..][0] && s[k + 2..] == s[k + 1..][1..];
    WithoutAround(s[..k], x, [s[k + 1]]);
    WithoutAbsent(s[k + 2..], x);
    assert s[..k] + [s[k + 1]] + [x] + s[k + 2..] == s[k := s[k + 1]][k + 1 := x];
  }

  /** Entering the gap one place back swaps an item with its previous sibling. */
  lemma GapSwapsUp(s: seq<Id>, k: nat)
    requires 0 < k < |s| && AllDifferent(s)
    ensures IntoGap(s, s[k], k - 1) == s[k := s[k - 1]][k - 1 := s[k]]
  {
    var x := s[k];
    OthersDiffer(s, k);
    hide AllDifferent, Without;
    var a, b := s[..k - 1], s[k + 1..];
    assert s[..k] == a + [s[k - 1]];
    assert s[k - 1..] == [s[k - 1]] + [x] + b;
    WithoutAround([s[k - 1]], x, b);
    WithoutAbsent(a, x);
    assert a + [x] + ([s[k - 1]] + b) == s[k := s[k - 1]][k - 1 := x];
  }

  // ---------- deleting a childless item ----------

  /** Deleting an item without live children removes it from its list and changes nothing else. */
  lemma DeleteLands(items: Items, root: Id, x: Id)
    requires Clean(items, root) && Live(items, root, x) && Kids(items, root, x) == {}
    ensures var after := items[x := items[x].(isDeleted := true)];
      && Clean(after, root) && EdgesOf(after, root) == EdgesOf(items, root)
      && (forall id :: Live(after, root, id) <==> Live(items, root, id) && id != x)
      && forall p :: ChildIds(after, root, p) == Without(ChildIds(items, root, p), x)
  {
    var after := items[x := items[x].(isDeleted := true)];
    DeleteKeepsEdges(items, root, x);
    forall id
      ensures Live(after, root, id) <==> Live(items, root, id) && id != x
    {
      DeleteHides(items, root, x, id);
    }
    forall p
      ensures ChildIds(after, root, p) == Without(ChildIds(items, root, p), x)
    {
      forall e
        ensures e in Kids(after, root, p) <==> e in Others(Kids(items, root, p), x)
      {
        KidsMembers(after, root, p, e);
        KidsMembers(items, root, p, e);
      }
      SetEquality(Kids(after, root, p), Others(Kids(items, root, p), x));
      DropInOrder(Kids(items, root, p), x);
      DropIds(Children(items, root, p), x);
    }
  }

  lemma DeleteKeepsEdges(items: Items, root: Id, x: Id)
    requires Clean(items, root) && x in items && x != root
    ensures var after := items[x := items[x].(isDeleted := true)];
      Clean(after, root) && EdgesOf(after, root) == EdgesOf(items, root)
  {
    var after := items[x := items[x].(isDeleted := true)];
    CleanMeansRaw(items, root);
    DeleteIsLocal(items, root, x);
    TreeMeansClean(after, root);
  }

  lemma DeleteIsLocal(items: Items, root: Id, x: Id)
    requires x in items && x != root
    ensures var after := items[x := items[x].(isDeleted := true)];
      && RawEdges(RawOf(after), root) == RawEdges(RawOf(items), root)
      && Tombstones(RawOf(after), root) == Tombstones(RawOf(items), root) + {x}
      && (Placeable(items, root) ==> Placeable(after, root))
  {
    var after := items[x := items[x].(isDeleted := true)];
    forall id
      ensures id in Tombstones(RawOf(after), root) <==> id in Tombstones(RawOf(items), root) + {x}
    {
    }
    SetEquality(Tombstones(RawOf(after), root), Tombstones(RawOf(items), root) + {x});
  }

  lemma DeleteHides(items: Items, root: Id, x: Id, id: Id)
    requires Clean(items, root) && Live(items, root, x) && Kids(items, root, x) == {}
    ensures Live(items[x := items[x].(isDeleted := true)], root, id) <==> Live(items, root, id) && id != x
  {
    var after := items[x := items[x].(isDeleted := true)];
    var g := EdgesOf(items, root);
    DeleteKeepsEdges(items, root, x);
    DeleteIsLocal(items, root, x);
    LiveMeansNotHidden(after, root, id);
    LiveMeansNotHidden(items, root, id);
    var marked := Tombstones(RawOf(items), root);
    HiddenMore(g, marked, x, id);
    AboveStepSelf(g, x);
    if Live(items, root, id) && id != x && Above(g, x, id) {
      var c := LiveChildToward(items, root, x, id);
      KidsMembers(items, root, x, Sibling(c, items[c].rank));
      assert false;
    }
  }

  lemma HiddenMore(g: map<Id, Id>, marked: set<Id>, x: Id, id: Id)
    ensures Hidden(g, marked + {x}, id) <==> Hidden(g, marked, id) || Above(g, x, id)
  {
    if Above(g, x, id) {
      assert x in marked + {x};
    }
    if Hidden(g, marked, id) {
      var a :| a in marked && Above(g, a, id);
      assert a in marked + {x};
    }
  }

  /** Above a live item everything is live, so some live child of `x` leads to it. */
  lemma LiveChildToward(items: Items, root: Id, x: Id, id: Id) returns (c: Id)
    requires Clean(items, root) && Live(items, root, id) && id != x && Above(EdgesOf(items, root), x, id)
    ensures Live(items, root, c) && EdgesOf(items, root)[c] == x
  {
    var g := EdgesOf(items, root);
    CleanMeansRaw(items, root);
    var k := FirstMeeting(g, x, id);
    c := Up(g, id, k - 1);
    assert c in g && g[c] == x;
    LiveMeansNotHidden(items, root, id);
    LiveMeansNotHidden(items, root, c);
    var marked := Tombstones(RawOf(items), root);
    if Hidden(g, marked, c) {
      var a :| a in marked && Above(g, a, c);
      assert Above(g, c, id);
      AboveTransitive(g, a, c, id);
      assert false;
    }
  }
}
