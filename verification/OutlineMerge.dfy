/**
 Merging an item into another one: its live children are adopted one write at a
 time, then the item itself is deleted.
 */
module OutlineMerge {
  import opened Collections
  import opened TreeTheory
  import opened Siblings
  import opened EffectiveTree
  import opened OutlineModel
  import opened OutlineIndex
  import opened OutlineMoves

  ghost predicate AllIn(items: Items, ids: seq<Id>, target: Id) {
    target in items && forall i :: 0 <= i < |ids| ==> ids[i] in items
  }

  /** The writes that place `ids` under `target` at `ranks`, in this order. */
  ghost function AdoptAll(items: Items, target: Id, ids: seq<Id>, ranks: seq<Rank>): (r: Items)
    requires AllIn(items, ids, target) && |ids| == |ranks|
    ensures r.Keys == items.Keys
  {
    if ids == [] then items
    else
      var n := |ids| - 1;
      Moved(AdoptAll(items, target, ids[..n], ranks[..n]), ids[n], target, ranks[n])
  }

  /** Ranks that follow `last` and each other. */
  ghost predicate Ascending(last: Option<Rank>, ranks: seq<Rank>) {
    && (last.Some? && ranks != [] ==> last.value < ranks[0])
    && forall i :: 0 < i < |ranks| ==> ranks[i - 1] < ranks[i]
  }

  ghost function LastRank(s: seq<Sibling>): Option<Rank> {
    if s == [] then None else Some(s[|s| - 1].rank)
  }

  function WithText(items: Items, id: Id, content: string): Items
    requires id in items
  {
    items[id := items[id].(content := content)]
  }

  function JoinTexts(items: Items, id: Id, target: Id): Items
    requires id in items && target in items
  {
    WithText(items, target, items[target].content + items[id].content)
  }

  function Tombstoned(items: Items, id: Id): Items
    requires id in items
  {
    items[id := items[id].(isDeleted := true)]
  }

  /** Everything the merge writes. */
  ghost predicate MergeStep(before: Items, after: Items, root: Id, id: Id, target: Id, ranks: seq<Rank>)
    requires id in before && target in before
  {
    var joined := JoinTexts(before, id, target);
    var orphans := ChildIds(before, root, id);
    && |ranks| == |orphans| && Ascending(LastRank(Children(before, root, target)), ranks)
    && AllIn(joined, orphans, target)
    && var adopted := AdoptAll(joined, target, orphans, ranks);
       after == if id == root then adopted else Tombstoned(adopted, id)
  }

  // ---------- adopting ----------

  /** After `i` adoptions the tree is clean, shows the same items and leaves the target in place. */
  ghost predicate AdoptingTree(before: Items, it: Items, root: Id, id: Id, target: Id) {
    && Ready(it, root, id) && Live(it, root, target)
    && !Above(EdgesOf(it, root), id, target)
    && forall z :: Live(it, root, z) <==> Live(before, root, z)
  }

  /** After `i` adoptions `i` orphans follow the target's own children, the rest still wait. */
  ghost predicate AdoptingLists(before: Items, it: Items, root: Id, id: Id, target: Id, orphans: seq<Id>, i: nat) {
    && i <= |orphans|
    && ChildIds(it, root, target) == ChildIds(before, root, target) + orphans[..i]
    && ChildIds(it, root, id) == orphans[i..]
    && forall p :: p != target && p != id ==> ChildIds(it, root, p) == ChildIds(before, root, p)
  }

  /** A listed item is in no other list. */
  lemma ListedElsewhere(items: Items, root: Id, p: Id, q: Id, x: Id)
    requires x in ChildIds(items, root, p) && p != q
    ensures x !in ChildIds(items, root, q)
  {
    ListedAsKid(items, root, p, x);
    ListedAsKid(items, root, q, x);
  }

  /** A child of `id` is not above a node that `id` is not above. */
  lemma ChildIsNotAbove(g: map<Id, Id>, id: Id, child: Id, target: Id)
    requires child in g && g[child] == id && !Above(g, id, target)
    ensures !Above(g, child, target) && child != target
    ensures !Above(g[child := target], id, target)
  {
    AboveStepSelf(g, id);
    AboveStep(g, id, child);
    if Above(g, child, target) {
      AboveTransitive(g, id, child, target);
      assert false;
    }
    AboveStepSelf(g, target);
    if Above(g[child := target], id, target) {
      var k: nat :| Up(g[child := target], target, k) == id;
      SameWalk(g, child, target, target, k);
      assert false;
    }
  }

  lemma FirstOrphan(before: Items, it: Items, root: Id, id: Id, target: Id, orphans: seq<Id>, i: nat)
    requires AdoptingLists(before, it, root, id, target, orphans, i) && i < |orphans|
    ensures orphans[i] in ChildIds(it, root, id) && ChildIds(it, root, id)[0] == orphans[i]
    ensures Live(it, root, orphans[i]) && EdgesOf(it, root)[orphans[i]] == id
  {
    assert ChildIds(it, root, id)[0] == orphans[i];
    ListedAsKid(it, root, id, orphans[i]);
  }

  lemma AdoptHost(before: Items, it: Items, root: Id, id: Id, target: Id, x: Id)
    requires AdoptingTree(before, it, root, id, target)
    requires Live(it, root, x) && EdgesOf(it, root)[x] == id
    ensures CanHost(it, root, x, target)
    ensures !Above(EdgesOf(it, root)[x := target], id, target)
  {
    LiveHasEdge(it, root, x);
    ChildIsNotAbove(EdgesOf(it, root), id, x, target);
  }

  /** One adoption puts the first waiting orphan behind the target's children. */
  lemma AdoptOneTree(before: Items, it: Items, root: Id, id: Id, target: Id, x: Id, r: Rank)
    requires AdoptingTree(before, it, root, id, target)
    requires Live(it, root, x) && EdgesOf(it, root)[x] == id
    requires Fits(Children(it, root, target), |Children(it, root, target)|, r)
    ensures AdoptingTree(before, Moved(it, x, target, r), root, id, target)
    ensures Relisted(it, Moved(it, x, target, r), root, x, target, |ChildIds(it, root, target)|)
  {
    hide EdgesOf, Kids, Live, Clean, Children;
    AdoptHost(before, it, root, id, target, x);
    MoveLands(it, root, x, target, r, |Children(it, root, target)|);
  }

  lemma AppendGap(l: seq<Id>, x: Id)
    requires x !in l
    ensures IntoGap(l, x, |l|) == l + [x]
  {
    assert l[..|l|] == l && l[|l|..] == [];
    WithoutAbsent(l, x);
  }

  lemma AdoptOneLists(before: Items, it: Items, next: Items, root: Id, id: Id, target: Id, orphans: seq<Id>, i: nat)
    requires id != target && AdoptingLists(before, it, root, id, target, orphans, i) && i < |orphans|
    requires Relisted(it, next, root, orphans[i], target, |ChildIds(it, root, target)|)
    ensures AdoptingLists(before, next, root, id, target, orphans, i + 1)
  {
    hide ChildIds, EdgesOf, Live;
    var x := orphans[i];
    FirstOrphan(before, it, root, id, target, orphans, i);
    ListedElsewhere(it, root, id, target, x);
    AppendGap(ChildIds(it, root, target), x);
    assert orphans[..i + 1] == orphans[..i] + [x];
    assert ChildIds(next, root, target) == ChildIds(before, root, target) + orphans[..i + 1];
    HeadOnly(it, root, id, x);
    assert orphans[i..][1..] == orphans[i + 1..];
    forall p | p != target && p != id
      ensures ChildIds(next, root, p) == ChildIds(before, root, p)
    {
      ListedElsewhere(it, root, id, p, x);
      WithoutAbsent(ChildIds(it, root, p), x);
    }
  }

  lemma HeadOnly(items: Items, root: Id, p: Id, x: Id)
    requires ChildIds(items, root, p) != [] && ChildIds(items, root, p)[0] == x
    ensures Without(ChildIds(items, root, p), x) == ChildIds(items, root, p)[1..]
  {
    var s := ChildIds(items, root, p);
    forall j | 0 < j < |s|
      ensures s[j] != x
    {
      ListedOnce(items, root, p, 0, j);
    }
    WithoutAbsent(s[1..], x);
  }

  /** The last child's rank is the one last written. */
  lemma LastListed(it: Items, root: Id, target: Id, x: Id)
    requires ChildIds(it, root, target) != []
    requires ChildIds(it, root, target)[|ChildIds(it, root, target)| - 1] == x
    ensures x in it && LastRank(Children(it, root, target)) == Some(it[x].rank)
  {
    var s := Children(it, root, target);
    assert s[|s| - 1] in Members(s);
    KidsMembers(it, root, target, s[|s| - 1]);
  }

  lemma NextFits(joined: Items, it: Items, root: Id, id: Id, target: Id, orphans: seq<Id>, ranks: seq<Rank>, i: nat)
    requires AdoptingLists(joined, it, root, id, target, orphans, i) && i < |orphans| == |ranks|
    requires Ascending(LastRank(Children(joined, root, target)), ranks)
    requires i == 0 ==> it == joined
    requires i > 0 ==> orphans[i - 1] in it && it[orphans[i - 1]].rank == ranks[i - 1]
    ensures Fits(Children(it, root, target), |Children(it, root, target)|, ranks[i])
  {
    hide Kids, Live, Children;
    if i > 0 {
      var l := ChildIds(it, root, target);
      assert l[|l| - 1] == orphans[..i][i - 1] == orphans[i - 1];
      hide AdoptingLists;
      LastListed(it, root, target, orphans[i - 1]);
    }
  }

  lemma {:induction false} AdoptAllLands(joined: Items, root: Id, id: Id, target: Id, orphans: seq<Id>,
                                         ranks: seq<Rank>, i: nat)
    requires id != target && orphans == ChildIds(joined, root, id)
    requires AdoptingTree(joined, joined, root, id, target)
    requires |ranks| == |orphans| && Ascending(LastRank(Children(joined, root, target)), ranks)
    requires AllIn(joined, orphans, target) && i <= |orphans|
    ensures AdoptingTree(joined, AdoptAll(joined, target, orphans[..i], ranks[..i]), root, id, target)
    ensures AdoptingLists(joined, AdoptAll(joined, target, orphans[..i], ranks[..i]), root, id, target, orphans, i)
  {
    hide EdgesOf, Kids, Live, Clean, Children;
    if i > 0 {
      AdoptAllLands(joined, root, id, target, orphans, ranks, i - 1);
      var it := AdoptAll(joined, target, orphans[..i - 1], ranks[..i - 1]);
      AdoptAllStep(joined, target, orphans, ranks, i);
      LastWritten(joined, target, orphans, ranks, i - 1);
      NextFits(joined, it, root, id, target, orphans, ranks, i - 1);
      FirstOrphan(joined, it, root, id, target, orphans, i - 1);
      AdoptOneTree(joined, it, root, id, target, orphans[i - 1], ranks[i - 1]);
      AdoptOneLists(joined, it, Moved(it, orphans[i - 1], target, ranks[i - 1]), root, id, target, orphans, i - 1);
    }
  }

  lemma AdoptAllStep(items: Items, target: Id, ids: seq<Id>, ranks: seq<Rank>, i: nat)
    requires AllIn(items, ids, target) && |ids| == |ranks| && 0 < i <= |ids|
    ensures AdoptAll(items, target, ids[..i], ranks[..i])
         == Moved(AdoptAll(items, target, ids[..i - 1], ranks[..i - 1]), ids[i - 1], target, ranks[i - 1])
  {
    assert ids[..i][..i - 1] == ids[..i - 1] && ranks[..i][..i - 1] == ranks[..i - 1];
  }

  lemma LastWritten(items: Items, target: Id, ids: seq<Id>, ranks: seq<Rank>, i: nat)
    requires AllIn(items, ids, target) && |ids| == |ranks| && i <= |ids|
    ensures i == 0 ==> AdoptAll(items, target, ids[..i], ranks[..i]) == items
    ensures i > 0 ==> AdoptAll(items, target, ids[..i], ranks[..i])[ids[i - 1]].rank == ranks[i - 1]
  {
    if i > 0 {
      AdoptAllStep(items, target, ids, ranks, i);
    }
  }

  // ---------- the merged outline ----------

  /**
   Nothing is recovered, every other shown item stays shown, the moved children
   follow the target's own in their order, and no other list changes.
   */
  ghost predicate Shown(before: Items, after: Items, root: Id, id: Id, target: Id) {
    && Clean(after, root)
    && (forall z :: Live(after, root, z) <==> Live(before, root, z) && z != id)
    && ChildIds(after, root, target) == Without(ChildIds(before, root, target), id) + ChildIds(before, root, id)
    && forall p :: p != target && p != id ==> ChildIds(after, root, p) == Without(ChildIds(before, root, p), id)
  }

  ghost predicate Merged(before: Items, after: Items, root: Id, id: Id, target: Id)
    requires id in before && target in before
  {
    Shown(before, after, root, id, target) && Joined(before, after, id, target)
  }

  /** The two texts are joined; no other text changes. */
  ghost predicate Joined(before: Items, after: Items, id: Id, target: Id)
    requires id in before && target in before
  {
    && after.Keys == before.Keys
    && after[target].content == before[target].content + before[id].content
    && forall z :: z in before && z != target ==> after[z].content == before[z].content
  }

  lemma {:induction false} AdoptKeepsText(items: Items, target: Id, ids: seq<Id>, ranks: seq<Rank>)
    requires AllIn(items, ids, target) && |ids| == |ranks|
    ensures forall z :: z in items ==> AdoptAll(items, target, ids, ranks)[z].content == items[z].content
  {
    if ids != [] {
      AdoptKeepsText(items, target, ids[..|ids| - 1], ranks[..|ids| - 1]);
    }
  }

  lemma NoKidsLeft(items: Items, root: Id, p: Id)
    requires ChildIds(items, root, p) == []
    ensures Kids(items, root, p) == {}
  {
    assert |Children(items, root, p)| == 0;
  }

  /** The outline looks the same: same tree, same lists, same shown items. */
  ghost predicate SameOutline(a: Items, b: Items, root: Id) {
    && (Clean(a, root) <==> Clean(b, root))
    && EdgesOf(a, root) == EdgesOf(b, root)
    && (forall p :: Children(a, root, p) == Children(b, root, p))
    && (forall id :: Live(a, root, id) <==> Live(b, root, id))
  }

  /** Joining the texts first changes nothing that the adoption relies on. */
  lemma TextsDoNotShow(before: Items, root: Id, id: Id, target: Id)
    requires id in before && target in before
    ensures SameOutline(before, JoinTexts(before, id, target), root)
    ensures Ready(before, root, id) ==> Ready(JoinTexts(before, id, target), root, id)
  {
    OutlineIgnoresText(before, JoinTexts(before, id, target), root);
  }

  lemma AdoptingStarts(items: Items, root: Id, id: Id, target: Id)
    requires Ready(items, root, id) && Live(items, root, target)
    requires !Above(EdgesOf(items, root), id, target)
    ensures AdoptingTree(items, items, root, id, target)
  {
  }

  /** Merging into an item outside the own subtree does exactly what the editor promises. */
  lemma MergeMeets(before: Items, after: Items, root: Id, id: Id, target: Id, ranks: seq<Rank>)
    requires Ready(before, root, id) && Live(before, root, target)
    requires id != target && !Above(EdgesOf(before, root), id, target)
    requires MergeStep(before, after, root, id, target, ranks)
    ensures Merged(before, after, root, id, target)
  {
    var joined := JoinTexts(before, id, target);
    TextsDoNotShow(before, root, id, target);
    assert AllIn(joined, ChildIds(joined, root, id), target);
    MergeAdopts(joined, root, id, target, ranks);
    var adopted := AdoptAll(joined, target, ChildIds(joined, root, id), ranks);
    assert after == Tombstoned(adopted, id);
    hide EdgesOf, Kids, Live, Clean, Children, Shown, Ready, Joined, MergeStep, SameOutline, AdoptAll, JoinTexts;
    MergeJoins(before, joined, adopted, id, target, ChildIds(joined, root, id), ranks);
    ShownFromJoined(before, joined, after, root, id, target);
  }

  lemma MergeAdopts(joined: Items, root: Id, id: Id, target: Id, ranks: seq<Rank>)
    requires Ready(joined, root, id) && Live(joined, root, target)
    requires id != target && !Above(EdgesOf(joined, root), id, target)
    requires AllIn(joined, ChildIds(joined, root, id), target) && |ranks| == |ChildIds(joined, root, id)|
    requires Ascending(LastRank(Children(joined, root, target)), ranks)
    ensures var adopted := AdoptAll(joined, target, ChildIds(joined, root, id), ranks);
      id in adopted && Shown(joined, Tombstoned(adopted, id), root, id, target)
  {
    var orphans := ChildIds(joined, root, id);
    AdoptingStarts(joined, root, id, target);
    ReadyOmitsId(joined, root, id);
    assert id in joined;
    hide EdgesOf, Kids, Live, Clean, Children, AdoptingTree, AdoptingLists, Ready, Shown, Ascending, AdoptAll, ChildIds;
    AdoptEvery(joined, root, id, target, orphans, ranks);
    DeleteAdopted(joined, AdoptAll(joined, target, orphans, ranks), root, id, target);
  }

  lemma AdoptEvery(joined: Items, root: Id, id: Id, target: Id, orphans: seq<Id>, ranks: seq<Rank>)
    requires id != target && orphans == ChildIds(joined, root, id)
    requires AdoptingTree(joined, joined, root, id, target)
    requires |ranks| == |orphans| && Ascending(LastRank(Children(joined, root, target)), ranks)
    requires AllIn(joined, orphans, target)
    ensures AdoptingTree(joined, AdoptAll(joined, target, orphans, ranks), root, id, target)
    ensures AdoptingLists(joined, AdoptAll(joined, target, orphans, ranks), root, id, target, orphans, |orphans|)
  {
    hide EdgesOf, Kids, Live, Clean, Children, AdoptingTree, AdoptingLists, Ascending, AdoptAll, ChildIds;
    AdoptAllLands(joined, root, id, target, orphans, ranks, |orphans|);
    assert orphans[..|orphans|] == orphans && ranks[..|orphans|] == ranks;
  }

  lemma ShownFromJoined(before: Items, joined: Items, after: Items, root: Id, id: Id, target: Id)
    requires SameOutline(before, joined, root) && Shown(joined, after, root, id, target)
    ensures Shown(before, after, root, id, target)
  {
    hide EdgesOf, Kids, Live, Clean, Children;
  }

  lemma MergeJoins(before: Items, joined: Items, adopted: Items, id: Id, target: Id, orphans: seq<Id>, ranks: seq<Rank>)
    requires id in before && target in before && |orphans| == |ranks|
    requires joined == JoinTexts(before, id, target)
    requires AllIn(joined, orphans, target) && adopted == AdoptAll(joined, target, orphans, ranks)
    ensures Joined(before, Tombstoned(adopted, id), id, target)
  {
    AdoptKeepsText(joined, target, orphans, ranks);
    hide AdoptAll, AllIn;
    DeleteKeepsText(adopted, id);
  }

  lemma DeleteKeepsText(items: Items, id: Id)
    requires id in items
    ensures Tombstoned(items, id).Keys == items.Keys
    ensures forall z :: z in items ==> Tombstoned(items, id)[z].content == items[z].content
  {
  }

  lemma ReadyOmitsId(items: Items, root: Id, id: Id)
    requires Ready(items, root, id)
    ensures id !in ChildIds(items, root, id)
  {
    OwnListOmitsId(items, root, id);
  }

  lemma OwnListOmitsId(items: Items, root: Id, id: Id)
    requires Clean(items, root)
    ensures id !in ChildIds(items, root, id)
  {
    if id in ChildIds(items, root, id) {
      ListedAsKid(items, root, id, id);
      CleanMeansRaw(items, root);
      DepthStep(EdgesOf(items, root), id);
      assert false;
    }
  }

  lemma DeleteAdopted(before: Items, adopted: Items, root: Id, id: Id, target: Id)
    requires id in before && target in before && id != target && id !in ChildIds(before, root, id)
    requires id in adopted
    requires AdoptingTree(before, adopted, root, id, target)
    requires AdoptingLists(before, adopted, root, id, target, ChildIds(before, root, id), |ChildIds(before, root, id)|)
    ensures Shown(before, Tombstoned(adopted, id), root, id, target)
  {
    hide EdgesOf, Kids, Live, Clean, Children;
    NoKidsLeft(adopted, root, id);
    DeleteLands(adopted, root, id);
    WithoutConcat(ChildIds(before, root, target), ChildIds(before, root, id), id);
    WithoutAbsent(ChildIds(before, root, id), id);
    var orphans := ChildIds(before, root, id);
    assert orphans[..|orphans|] == orphans;
  }
}
