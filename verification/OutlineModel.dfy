/**
 The outline read off a document: effective parents, live children in read
 order, and what one placement write does to every children list.
 */
module OutlineModel {
  import opened Collections
  import opened TreeTheory
  import opened Siblings
  import opened EffectiveTree

  datatype Item = Item(parentId: Id, rank: Rank, isDeleted: bool, content: string, isCompleted: bool)

  type Items = map<Id, Item>

  ghost function RawOf(items: Items): Raw {
    map id | id in items :: Placement(items[id].parentId, items[id].isDeleted)
  }

  ghost function EdgesOf(items: Items, root: Id): map<Id, Id> {
    Edges(RawOf(items), root)
  }

  /** Listed in the outline: below the root and neither deleted nor under a deleted item. */
  ghost predicate Live(items: Items, root: Id, id: Id) {
    id in items && id != root && id !in Deleted(RawOf(items), root)
  }

  ghost function Kids(items: Items, root: Id, p: Id): set<Sibling> {
    set id | id in items && Live(items, root, id) && EdgesOf(items, root)[id] == p
      :: Sibling(id, items[id].rank)
  }

  /** The live children of `p` in read order. */
  ghost function Children(items: Items, root: Id, p: Id): seq<Sibling> {
    InOrder(Kids(items, root, p))
  }

  function Ids(s: seq<Sibling>): (r: seq<Id>)
    ensures |r| == |s| && forall i :: 0 <= i < |s| ==> r[i] == s[i].id
  {
    seq(|s|, i requires 0 <= i < |s| => s[i].id)
  }

  ghost function ChildIds(items: Items, root: Id, p: Id): seq<Id> {
    Ids(Children(items, root, p))
  }

  /** Nothing is recovered: the raw placements are the effective ones. */
  ghost predicate Clean(items: Items, root: Id) {
    Recovered(RawOf(items), root) == {}
  }

  lemma CleanMeansRaw(items: Items, root: Id)
    requires Clean(items, root)
    ensures var g := EdgesOf(items, root);
      && g == RawEdges(RawOf(items), root)
      && g.Keys == items.Keys - {root}
      && Forest(g) && ClosedUnder(g, root)
      && (forall id :: id in g ==> g[id] == items[id].parentId)
      && Placeable(items, root)
  {
    NothingRecovered(RawOf(items), root);
    EffectiveTreeIsRooted(RawOf(items), root);
  }

  ghost predicate Placeable(items: Items, root: Id) {
    forall id :: id in items && id != root ==>
      items[id].parentId in items && items[id].parentId != ROOT_PARENT_SENTINEL
  }

  lemma TreeMeansClean(items: Items, root: Id)
    requires Forest(RawEdges(RawOf(items), root))
    requires Placeable(items, root)
    ensures Clean(items, root) && EdgesOf(items, root) == RawEdges(RawOf(items), root)
  {
    NothingRecovered(RawOf(items), root);
  }

  // ---------- lists of ids ----------

  /** The list without `x`. */
  function Without(s: seq<Id>, x: Id): seq<Id> {
    if s == [] then []
    else if s[0] == x then Without(s[1..], x)
    else [s[0]] + Without(s[1..], x)
  }

  lemma {:induction false} WithoutConcat(a: seq<Id>, b: seq<Id>, x: Id)
    ensures Without(a + b, x) == Without(a, x) + Without(b, x)
  {
    if a == [] {
      assert a + b == b;
    } else {
      assert (a + b)[1..] == a[1..] + b;
      WithoutConcat(a[1..], b, x);
    }
  }

  lemma {:induction false} WithoutAbsent(s: seq<Id>, x: Id)
    requires x !in s
    ensures Without(s, x) == s
  {
    if s != [] {
      WithoutAbsent(s[1..], x);
    }
  }

  /** `x` leaves wherever it is listed and enters the gap before position `c`. */
  function IntoGap(s: seq<Id>, x: Id, c: nat): seq<Id>
    requires c <= |s|
  {
    Without(s[..c], x) + [x] + Without(s[c..], x)
  }

  /**
   From `before` to `after`, item `x` is taken out of its list and put into the gap
   before position `c` of the children of `to`; every other list stays as it was.
   */
  ghost predicate Relisted(before: Items, after: Items, root: Id, x: Id, to: Id, c: nat) {
    && c <= |ChildIds(before, root, to)|
    && ChildIds(after, root, to) == IntoGap(ChildIds(before, root, to), x, c)
    && forall p :: p != to ==> ChildIds(after, root, p) == Without(ChildIds(before, root, p), x)
  }

  // ---------- the same on siblings ----------

  ghost function Drop(s: seq<Sibling>, x: Id): (r: seq<Sibling>)
    ensures forall e :: e in r <==> e in s && e.id != x
  {
    if s == [] then []
    else
      var rest := Drop(s[1..], x);
      if s[0].id == x then rest else [s[0]] + rest
  }

  lemma {:induction false} DropIds(s: seq<Sibling>, x: Id)
    ensures Ids(Drop(s, x)) == Without(Ids(s), x)
  {
    if s != [] {
      hide Ids;
      DropIds(s[1..], x);
      assert s == [s[0]] + s[1..];
      IdsCons(s[0], s[1..]);
      IdsCons(s[0], Drop(s[1..], x));
      assert Ids(s)[0] == s[0].id && Ids(s)[1..] == Ids(s[1..]);
    }
  }

  lemma IdsCons(e: Sibling, rest: seq<Sibling>)
    ensures Ids([e] + rest) == [e.id] + Ids(rest)
  {
  }

  lemma {:induction false} DropSorted(s: seq<Sibling>, x: Id)
    requires Sorted(s)
    ensures Sorted(Drop(s, x))
  {
    if s != [] {
      DropSorted(s[1..], x);
      forall e | e in Drop(s[1..], x)
        ensures Before(s[0], e)
      {
        assert e in s[1..];
      }
    }
  }

  lemma SortedConcat(a: seq<Sibling>, x: Sibling, b: seq<Sibling>)
    requires Sorted(a) && Sorted(b)
    requires forall e :: e in a ==> Before(e, x)
    requires forall e :: e in b ==> Before(x, e)
    ensures Sorted(a + [x] + b)
  {
    var t := a + [x] + b;
    forall i, j | 0 <= i < j < |t|
      ensures Before(t[i], t[j])
    {
      assert i < |a| ==> t[i] == a[i] && a[i] in a;
      assert j > |a| ==> t[j] == b[j - |a| - 1] && b[j - |a| - 1] in b;
    }
  }

  /** Ranks that leave room at gap `c` of a sorted list for rank `r`. */
  ghost predicate Fits(s: seq<Sibling>, c: nat, r: Rank) {
    && c <= |s|
    && (c > 0 ==> s[c - 1].rank < r)
    && (c < |s| ==> r < s[c].rank)
  }

  ghost function Others(m: set<Sibling>, x: Id): set<Sibling> {
    set e | e in m && e.id != x
  }

  lemma GapSorted(s: seq<Sibling>, x: Id, r: Rank, c: nat)
    requires Sorted(s) && Fits(s, c, r)
    ensures Sorted(Drop(s[..c], x) + [Sibling(x, r)] + Drop(s[c..], x))
  {
    DropSorted(s[..c], x);
    DropSorted(s[c..], x);
    forall e | e in Drop(s[..c], x)
      ensures Before(e, Sibling(x, r))
    {
      var i :| 0 <= i < |s[..c]| && s[..c][i] == e;
      assert i == c - 1 || Before(s[i], s[c - 1]);
    }
    forall e | e in Drop(s[c..], x)
      ensures Before(Sibling(x, r), e)
    {
      var i :| 0 <= i < |s[c..]| && s[c..][i] == e;
      assert i == 0 || Before(s[c], s[c + i]);
    }
    SortedConcat(Drop(s[..c], x), Sibling(x, r), Drop(s[c..], x));
  }

  lemma GapMembers(s: seq<Sibling>, x: Id, r: Rank, c: nat)
    requires c <= |s|
    ensures Members(Drop(s[..c], x) + [Sibling(x, r)] + Drop(s[c..], x))
         == Others(Members(s), x) + {Sibling(x, r)}
  {
    assert s == s[..c] + s[c..];
    MembersConcat(s[..c], s[c..]);
    DropMembers(s[..c], x);
    DropMembers(s[c..], x);
    MembersConcat(Drop(s[..c], x), [Sibling(x, r)]);
    MembersConcat(Drop(s[..c], x) + [Sibling(x, r)], Drop(s[c..], x));
    assert Members([Sibling(x, r)]) == {Sibling(x, r)};
  }

  lemma DropMembers(s: seq<Sibling>, x: Id)
    ensures Members(Drop(s, x)) == Others(Members(s), x)
  {
  }

  lemma GapInOrder(m: set<Sibling>, x: Id, r: Rank, c: nat)
    requires Fits(InOrder(m), c, r)
    ensures InOrder(Others(m, x) + {Sibling(x, r)})
         == Drop(InOrder(m)[..c], x) + [Sibling(x, r)] + Drop(InOrder(m)[c..], x)
  {
    var s := InOrder(m);
    GapSorted(s, x, r, c);
    GapMembers(s, x, r, c);
    InOrderOf(Drop(s[..c], x) + [Sibling(x, r)] + Drop(s[c..], x));
  }

  lemma DropInOrder(m: set<Sibling>, x: Id)
    ensures InOrder(Others(m, x)) == Drop(InOrder(m), x)
  {
    DropSorted(InOrder(m), x);
    DropMembers(InOrder(m), x);
    InOrderOf(Drop(InOrder(m), x));
  }

  // ---------- one placement write ----------

  /** `after` places `x` under `y` at rank `r` and leaves every other item alone. */
  ghost predicate Replaced(before: Items, after: Items, x: Id, y: Id, r: Rank) {
    && after.Keys == before.Keys + {x}
    && after[x].parentId == y && after[x].rank == r
    && (x in before ==> after[x].isDeleted == before[x].isDeleted)
    && (x !in before ==> !after[x].isDeleted && forall z :: z in before ==> before[z].parentId != x)
    && forall z :: z in before && z != x ==>
         after[z].parentId == before[z].parentId && after[z].rank == before[z].rank
         && after[z].isDeleted == before[z].isDeleted
  }

  /** `x` may go under `y`: both are shown, and `y` is not inside the subtree of `x`. */
  ghost predicate CanHost(items: Items, root: Id, x: Id, y: Id) {
    && x != root && x != y && y != ROOT_PARENT_SENTINEL
    && (x in items ==> Live(items, root, x) && !Above(EdgesOf(items, root), x, y))
    && (Live(items, root, y) || (y == root && root in items))
  }

  lemma FreshIsNotAbove(g: map<Id, Id>, x: Id, id: Id)
    requires x !in g && id != x && forall z :: z in g ==> g[z] != x
    ensures !Above(g, x, id)
  {
    forall k: nat
      ensures Up(g, id, k) != x
    {
      FreshIsNotMet(g, x, id, k);
    }
  }

  lemma {:induction false} FreshIsNotMet(g: map<Id, Id>, x: Id, id: Id, k: nat)
    requires x !in g && id != x && forall z :: z in g ==> g[z] != x
    ensures Up(g, id, k) != x
  {
    if k > 0 {
      FreshIsNotMet(g, x, id, k - 1);
    }
  }

  /** The write keeps the outline clean and changes one effective parent. */
  lemma ReplacedEdges(before: Items, after: Items, root: Id, x: Id, y: Id, r: Rank)
    requires Clean(before, root) && Replaced(before, after, x, y, r) && CanHost(before, root, x, y)
    ensures Clean(after, root)
    ensures EdgesOf(after, root) == EdgesOf(before, root)[x := y]
  {
    CleanMeansRaw(before, root);
    NewcomerIsOutside(before, after, root, x, y, r);
    RegraftForest(EdgesOf(before, root), root, x, y);
    ReplacedRawEdges(before, after, root, x, y, r);
    ReplacedPlaceable(before, after, root, x, y, r);
    TreeMeansClean(after, root);
  }

  lemma NewcomerIsOutside(before: Items, after: Items, root: Id, x: Id, y: Id, r: Rank)
    requires Clean(before, root) && Replaced(before, after, x, y, r) && CanHost(before, root, x, y)
    ensures !Above(EdgesOf(before, root), x, y)
  {
    CleanMeansRaw(before, root);
    if x !in before {
      FreshIsNotAbove(EdgesOf(before, root), x, y);
    }
  }

  lemma ReplacedPlaceable(before: Items, after: Items, root: Id, x: Id, y: Id, r: Rank)
    requires Placeable(before, root) && Replaced(before, after, x, y, r)
    requires y in before && y != ROOT_PARENT_SENTINEL
    ensures Placeable(after, root)
  {
  }

  lemma ReplacedRawEdges(before: Items, after: Items, root: Id, x: Id, y: Id, r: Rank)
    requires Replaced(before, after, x, y, r) && x != root
    ensures RawEdges(RawOf(after), root) == RawEdges(RawOf(before), root)[x := y]
  {
  }

  lemma ReplacedTombstones(before: Items, after: Items, root: Id, x: Id, y: Id, r: Rank)
    requires Replaced(before, after, x, y, r)
    ensures Tombstones(RawOf(after), root) == Tombstones(RawOf(before), root)
  {
  }

  /** Shown items are those below the root that are not hidden. */
  lemma LiveMeansNotHidden(items: Items, root: Id, id: Id)
    ensures Live(items, root, id) <==>
      id in items && id != root && !Hidden(EdgesOf(items, root), Tombstones(RawOf(items), root), id)
  {
  }

  lemma LiveIsNotHidden(items: Items, root: Id, id: Id)
    requires Live(items, root, id) || id == root
    ensures !Hidden(EdgesOf(items, root), Tombstones(RawOf(items), root), id)
  {
    RootIsNeverHidden(RawOf(items), root);
  }

  /** The write hides nothing and reveals nothing. */
  lemma ReplacedLive(before: Items, after: Items, root: Id, x: Id, y: Id, r: Rank, id: Id)
    requires Clean(before, root) && Replaced(before, after, x, y, r) && CanHost(before, root, x, y)
    ensures Live(after, root, id) <==> Live(before, root, id) || id == x
  {
    if id in after && id != root {
      var g := EdgesOf(before, root);
      var marked := Tombstones(RawOf(before), root);
      ReplacedEdges(before, after, root, x, y, r);
      CleanMeansRaw(after, root);
      CleanMeansRaw(before, root);
      ReplacedTombstones(before, after, root, x, y, r);
      LiveIsNotHidden(before, root, y);
      if x in before {
        LiveIsNotHidden(before, root, x);
      } else {
        HiddenTerminal(g, marked, x);
      }
      HiddenAfterRegraft(g, x, y, marked, id);
      LiveMeansNotHidden(after, root, id);
      LiveMeansNotHidden(before, root, id);
    }
  }

  ghost predicate IsKid(items: Items, root: Id, p: Id, e: Sibling) {
    Live(items, root, e.id) && e.rank == items[e.id].rank && EdgesOf(items, root)[e.id] == p
  }

  lemma KidsMembers(items: Items, root: Id, p: Id, e: Sibling)
    ensures e in Kids(items, root, p) <==> IsKid(items, root, p, e)
  {
  }

  lemma ReplacedKids(before: Items, after: Items, root: Id, x: Id, y: Id, r: Rank, p: Id)
    requires Clean(before, root) && Replaced(before, after, x, y, r) && CanHost(before, root, x, y)
    ensures Kids(after, root, p)
         == Others(Kids(before, root, p), x) + if p == y then {Sibling(x, r)} else {}
  {
    hide EdgesOf, Kids, Live, Clean, IsKid, Replaced, CanHost;
    var kids := Others(Kids(before, root, p), x) + if p == y then {Sibling(x, r)} else {};
    forall e
      ensures e in Kids(after, root, p) <==> e in kids
    {
      KidsMembers(after, root, p, e);
      KidsMembers(before, root, p, e);
      ReplacedKid(before, after, root, x, y, r, p, e);
    }
    SetEquality(Kids(after, root, p), kids);
  }

  lemma ReplacedKid(before: Items, after: Items, root: Id, x: Id, y: Id, r: Rank, p: Id, e: Sibling)
    requires Clean(before, root) && Replaced(before, after, x, y, r) && CanHost(before, root, x, y)
    ensures IsKid(after, root, p, e) <==>
      (IsKid(before, root, p, e) && e.id != x) || (p == y && e == Sibling(x, r))
  {
    ReplacedEdges(before, after, root, x, y, r);
    ReplacedLive(before, after, root, x, y, r, e.id);
    if e.id == x {
      assert EdgesOf(after, root)[x] == y;
    } else if Live(before, root, e.id) {
      LiveHasEdge(before, root, e.id);
      assert EdgesOf(after, root)[e.id] == EdgesOf(before, root)[e.id];
    }
  }

  lemma LiveHasEdge(items: Items, root: Id, id: Id)
    requires Live(items, root, id)
    ensures id in EdgesOf(items, root)
  {
    EffectiveTreeIsRooted(RawOf(items), root);
  }

  lemma LeftList(before: Items, after: Items, root: Id, x: Id, y: Id, r: Rank, p: Id)
    requires Clean(before, root) && Replaced(before, after, x, y, r) && CanHost(before, root, x, y) && p != y
    ensures ChildIds(after, root, p) == Without(ChildIds(before, root, p), x)
  {
    ReplacedKids(before, after, root, x, y, r, p);
    hide EdgesOf, Kids, Live, Clean, Drop, Without, Replaced, CanHost;
    assert Kids(after, root, p) == Others(Kids(before, root, p), x);
    DropInOrder(Kids(before, root, p), x);
    DropIds(Children(before, root, p), x);
  }

  lemma EnteredList(before: Items, after: Items, root: Id, x: Id, y: Id, r: Rank, c: nat)
    requires Clean(before, root) && Replaced(before, after, x, y, r) && CanHost(before, root, x, y)
    requires Fits(Children(before, root, y), c, r)
    ensures ChildIds(after, root, y) == IntoGap(ChildIds(before, root, y), x, c)
  {
    ReplacedKids(before, after, root, x, y, r, y);
    hide EdgesOf, Kids, Live, Clean, Drop, Without, Replaced, CanHost, Others;
    GapInOrder(Kids(before, root, y), x, r, c);
    GapIds(Children(before, root, y), x, r, c);
  }

  /** A write at a rank that fits gap `c` of the new parent's list moves exactly that item there. */
  lemma ReplacedLists(before: Items, after: Items, root: Id, x: Id, y: Id, r: Rank, c: nat)
    requires Clean(before, root) && Replaced(before, after, x, y, r) && CanHost(before, root, x, y)
    requires Fits(Children(before, root, y), c, r)
    ensures Relisted(before, after, root, x, y, c)
  {
    assert c <= |ChildIds(before, root, y)|;
    hide ChildIds, Without, IntoGap, Replaced, CanHost, Fits;
    forall p | p != y
      ensures ChildIds(after, root, p) == Without(ChildIds(before, root, p), x)
    {
      LeftList(before, after, root, x, y, r, p);
    }
    EnteredList(before, after, root, x, y, r, c);
  }

  lemma GapIds(s: seq<Sibling>, x: Id, r: Rank, c: nat)
    requires c <= |s|
    ensures Ids(Drop(s[..c], x) + [Sibling(x, r)] + Drop(s[c..], x)) == IntoGap(Ids(s), x, c)
  {
    DropIds(s[..c], x);
    DropIds(s[c..], x);
    assert Ids(s)[..c] == Ids(s[..c]);
    assert Ids(s)[c..] == Ids(s[c..]);
    IdsAround(Drop(s[..c], x), Sibling(x, r), Drop(s[c..], x));
  }

  lemma IdsAround(a: seq<Sibling>, x: Sibling, b: seq<Sibling>)
    ensures Ids(a + [x] + b) == Ids(a) + [x.id] + Ids(b)
  {
  }
}
