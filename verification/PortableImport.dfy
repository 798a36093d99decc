/**
 Building a fresh document from a portable outline: new ids, and new ranks that
 follow the order of the old ones.
 */
module PortableImport {
  import opened Collections
  import opened TreeTheory
  import opened Siblings
  import opened EffectiveTree
  import opened OutlineModel
  import opened OutlineIndex
  import opened Portable

  /** Every item gets an id of its own; the root becomes the document. */
  ghost predicate Renames(ids: map<Id, Id>, outline: Outline) {
    && ids.Keys == outline.Keys
    && (forall a, b :: a in ids && b in ids && a != b ==> ids[a] != ids[b])
    && forall a :: a in ids ==> ids[a] != ROOT_PARENT_SENTINEL
  }

  function NewParent(ids: map<Id, Id>, item: PortableItem): Id {
    if item.parentId.Some? && item.parentId.value in ids then ids[item.parentId.value] else ROOT_PARENT_SENTINEL
  }

  /** The item as written into the new document; the root is never written as deleted. */
  function NewItem(ids: map<Id, Id>, item: PortableItem, rank: Rank): Item {
    Item(NewParent(ids, item), rank, item.deleted == Some(true) && item.parentId.Some?, item.content, item.isCompleted)
  }

  function SiblingOf(item: PortableItem): Sibling {
    Sibling(item.id, item.rank)
  }

  predicate ListedBefore(a: PortableItem, b: PortableItem) {
    a.parentId == b.parentId && Before(SiblingOf(a), SiblingOf(b))
  }

  /** The new ranks follow the order of the old ones, ties broken by the old ids. */
  ghost predicate RanksFollow(outline: Outline, ranks: map<Id, Rank>) {
    && ranks.Keys == outline.Keys
    && forall a, b :: a in outline && b in outline && ListedBefore(outline[a], outline[b]) ==> ranks[a] < ranks[b]
  }

  ghost predicate Built(outline: Outline, ids: map<Id, Id>, doc: Items) {
    exists ranks :: RanksFollow(outline, ranks) && Writes(outline, ids, ranks, outline.Keys, doc)
  }

  // The items in `done` have been written, nothing else.
  ghost predicate Writes(outline: Outline, ids: map<Id, Id>, ranks: map<Id, Rank>, done: set<Id>, doc: Items) {
    && ids.Keys == outline.Keys == ranks.Keys
    && (forall id :: id in outline && id in done ==>
          ids[id] in doc && doc[ids[id]] == NewItem(ids, outline[id], ranks[id]))
    && forall x :: x in doc ==> exists id :: id in outline && id in done && ids[id] == x
  }

  lemma WritesStep(outline: Outline, ids: map<Id, Id>, ranks: map<Id, Rank>, done: set<Id>, doc: Items, id: Id)
    requires Renames(ids, outline) && Writes(outline, ids, ranks, done, doc) && id in outline && id !in done
    ensures Writes(outline, ids, ranks, done + {id}, doc[ids[id] := NewItem(ids, outline[id], ranks[id])])
  {
    hide NewItem;
    var after := doc[ids[id] := NewItem(ids, outline[id], ranks[id])];
    forall x | x in after
      ensures exists z :: z in outline && z in done + {id} && ids[z] == x
    {
      if x in doc {
        var z :| z in outline && z in done && ids[z] == x;
        assert z in done + {id};
      } else {
        assert id in done + {id};
      }
    }
  }

  /** Ranks 0, 1, 2, ... stand for as many increasing keys as there are siblings. */
  method NumberSiblings(sorted: seq<Sibling>, ranks0: map<Id, Rank>) returns (ranks: map<Id, Rank>)
    requires forall i, j :: 0 <= i < j < |sorted| ==> sorted[i].id != sorted[j].id
    ensures ranks.Keys == ranks0.Keys + set e | e in Members(sorted) :: e.id
    ensures forall id :: id in ranks0 && (forall e :: e in sorted ==> e.id != id) ==> ranks[id] == ranks0[id]
    ensures forall i :: 0 <= i < |sorted| ==> sorted[i].id in ranks && ranks[sorted[i].id] == i as real
  {
    ranks := ranks0;
    for n := 0 to |sorted|
      invariant ranks.Keys == ranks0.Keys + set e | e in Members(sorted[..n]) :: e.id
      invariant forall id :: id in ranks0 && (forall e :: e in sorted ==> e.id != id) ==> ranks[id] == ranks0[id]
      invariant forall i :: 0 <= i < n ==> sorted[i].id in ranks && ranks[sorted[i].id] == i as real
    {
      assert sorted[..n + 1] == sorted[..n] + [sorted[n]];
      assert sorted[n] in sorted;
      ranks := ranks[sorted[n].id := n as real];
    }
    assert sorted[..|sorted|] == sorted;
  }

  // The siblings among the first `n` items of the list that hang under `p`.
  ghost function GroupIn(list: seq<PortableItem>, n: nat, p: Option<Id>): seq<Sibling>
    requires n <= |list|
  {
    if n == 0 then []
    else if list[n - 1].parentId == p then GroupIn(list, n - 1, p) + [SiblingOf(list[n - 1])]
    else GroupIn(list, n - 1, p)
  }

  lemma {:induction false} GroupMember(list: seq<PortableItem>, n: nat, p: Option<Id>, e: Sibling)
    requires n <= |list|
    ensures e in GroupIn(list, n, p) <==> exists i :: 0 <= i < n && list[i].parentId == p && SiblingOf(list[i]) == e
  {
    if n > 0 {
      GroupMember(list, n - 1, p, e);
    }
  }

  lemma {:induction false} GroupIsDistinct(list: seq<PortableItem>, n: nat, p: Option<Id>)
    requires n <= |list| && AreDistinct(list)
    ensures forall i, j :: 0 <= i < j < |GroupIn(list, n, p)| ==> GroupIn(list, n, p)[i].id != GroupIn(list, n, p)[j].id
  {
    if n > 0 {
      GroupIsDistinct(list, n - 1, p);
      if list[n - 1].parentId == p {
        forall e | e in GroupIn(list, n - 1, p)
          ensures e.id != list[n - 1].id
        {
          GroupMember(list, n - 1, p, e);
        }
      }
    }
  }

  function GroupOf(groups: map<Option<Id>, seq<Sibling>>, p: Option<Id>): seq<Sibling> {
    if p in groups then groups[p] else []
  }

  ghost predicate Groups(list: seq<PortableItem>, n: nat, groups: map<Option<Id>, seq<Sibling>>)
    requires n <= |list|
  {
    && (forall p :: GroupOf(groups, p) == GroupIn(list, n, p))
    && forall i :: 0 <= i < n ==> list[i].parentId in groups
  }

  lemma GroupsStep(list: seq<PortableItem>, n: nat, groups: map<Option<Id>, seq<Sibling>>)
    requires n < |list| && Groups(list, n, groups)
    ensures var p := list[n].parentId;
      Groups(list, n + 1, groups[p := GroupOf(groups, p) + [SiblingOf(list[n])]])
  {
    var after := groups[list[n].parentId := GroupOf(groups, list[n].parentId) + [SiblingOf(list[n])]];
    forall p
      ensures GroupOf(after, p) == GroupIn(list, n + 1, p)
    {
      assert GroupOf(groups, p) == GroupIn(list, n, p);
    }
  }

  method GroupByParent(list: seq<PortableItem>) returns (groups: map<Option<Id>, seq<Sibling>>)
    ensures Groups(list, |list|, groups)
  {
    groups := map[];
    assert Groups(list, 0, groups);
    hide Groups;
    for n := 0 to |list|
      invariant Groups(list, n, groups)
    {
      GroupsStep(list, n, groups);
      var p := list[n].parentId;
      groups := groups[p := GroupOf(groups, p) + [SiblingOf(list[n])]];
    }
  }

  /** The members of group `p` are numbered in read order. */
  ghost predicate Numbered(list: seq<PortableItem>, ranks: map<Id, Rank>, p: Option<Id>) {
    var sorted := InOrder(Members(GroupIn(list, |list|, p)));
    forall i :: 0 <= i < |sorted| ==> sorted[i].id in ranks && ranks[sorted[i].id] == i as real
  }

  method RankGroup(ghost list: seq<PortableItem>, siblings: seq<Sibling>, ghost p: Option<Id>, ranks0: map<Id, Rank>,
                   ghost done: set<Option<Id>>)
    returns (ranks: map<Id, Rank>)
    requires AreDistinct(list) && siblings == GroupIn(list, |list|, p) && p !in done
    requires (forall q :: q in done ==> Numbered(list, ranks0, q)) && forall id :: id in ranks0 ==> IsListed(list, id)
    ensures (forall q :: q in done + {p} ==> Numbered(list, ranks, q)) && forall id :: id in ranks ==> IsListed(list, id)
  {
    GroupIsDistinct(list, |list|, p);
    var sorted := SortSiblings(siblings);
    SortedIsDistinct(list, p, sorted);
    ranks := NumberSiblings(sorted, ranks0);
    forall q | q in done
      ensures Numbered(list, ranks, q)
    {
      GroupsApart(list, p, q);
    }
    forall id | id in ranks
      ensures IsListed(list, id)
    {
      if id !in ranks0 {
        var e :| e in Members(sorted) && e.id == id;
        GroupMember(list, |list|, p, e);
      }
    }
  }

  ghost predicate IsListed(list: seq<PortableItem>, id: Id) {
    exists i :: 0 <= i < |list| && list[i].id == id
  }

  lemma SortedIsDistinct(list: seq<PortableItem>, p: Option<Id>, sorted: seq<Sibling>)
    requires AreDistinct(list) && sorted == InOrder(Members(GroupIn(list, |list|, p)))
    ensures forall i, j :: 0 <= i < j < |sorted| ==> sorted[i].id != sorted[j].id
  {
    hide GroupIn, AreDistinct, SiblingOf;
    forall i, j | 0 <= i < j < |sorted|
      ensures sorted[i].id != sorted[j].id
    {
      assert sorted[i] in Members(sorted) && sorted[j] in Members(sorted);
      assert Before(sorted[i], sorted[j]);
      GroupIdsDiffer(list, p, sorted[i], sorted[j]);
    }
  }

  lemma GroupIdsDiffer(list: seq<PortableItem>, p: Option<Id>, d: Sibling, e: Sibling)
    requires AreDistinct(list) && d in GroupIn(list, |list|, p) && e in GroupIn(list, |list|, p) && d != e
    ensures d.id != e.id
  {
    GroupMember(list, |list|, p, d);
    GroupMember(list, |list|, p, e);
  }

  /** Different groups have no id in common. */
  lemma GroupsApart(list: seq<PortableItem>, p: Option<Id>, q: Option<Id>)
    requires AreDistinct(list) && p != q
    ensures forall d, e :: d in GroupIn(list, |list|, p) && e in GroupIn(list, |list|, q) ==> d.id != e.id
  {
    forall d, e | d in GroupIn(list, |list|, p) && e in GroupIn(list, |list|, q)
      ensures d.id != e.id
    {
      GroupMember(list, |list|, p, d);
      GroupMember(list, |list|, q, e);
    }
  }

  method RankItems(list: seq<PortableItem>) returns (ranks: map<Id, Rank>)
    requires AreDistinct(list)
    ensures RanksFollow(OutlineOf(list), ranks)
  {
    hide AreDistinct, OutlineOf, Numbered, RanksFollow;
    var groups := GroupByParent(list);
    ranks := map[];
    var left := groups.Keys;
    ghost var done: set<Option<Id>> := {};
    while left != {}
      invariant left <= groups.Keys && done == groups.Keys - left
      invariant (forall q :: q in done ==> Numbered(list, ranks, q)) && forall id :: id in ranks ==> IsListed(list, id)
      decreases |left|
    {
      var p := Pick(left);
      assert groups[p] == GroupOf(groups, p);
      ranks := RankGroup(list, groups[p], p, ranks, done);
      left := left - {p};
      done := done + {p};
    }
    NumbersFollow(list, ranks);
  }

  lemma NumbersFollow(list: seq<PortableItem>, ranks: map<Id, Rank>)
    requires AreDistinct(list)
    requires forall i :: 0 <= i < |list| ==> Numbered(list, ranks, list[i].parentId)
    requires forall id :: id in ranks ==> IsListed(list, id)
    ensures RanksFollow(OutlineOf(list), ranks)
  {
    hide Numbered, ListedBefore;
    var outline := OutlineOf(list);
    EveryItemNumbered(list, ranks);
    forall a, b | a in outline && b in outline && ListedBefore(outline[a], outline[b])
      ensures ranks[a] < ranks[b]
    {
      var i :| 0 <= i < |list| && list[i].id == a;
      var j :| 0 <= j < |list| && list[j].id == b;
      PairNumbered(list, ranks, i, j);
    }
  }

  lemma EveryItemNumbered(list: seq<PortableItem>, ranks: map<Id, Rank>)
    requires AreDistinct(list)
    requires forall i :: 0 <= i < |list| ==> Numbered(list, ranks, list[i].parentId)
    requires forall id :: id in ranks ==> IsListed(list, id)
    ensures ranks.Keys == OutlineOf(list).Keys
  {
    hide Numbered;
    forall i | 0 <= i < |list|
      ensures list[i].id in ranks
    {
      var _ := PlaceInGroup(list, ranks, i);
    }
    SetEquality(ranks.Keys, OutlineOf(list).Keys);
  }

  lemma PairNumbered(list: seq<PortableItem>, ranks: map<Id, Rank>, i: nat, j: nat)
    requires i < |list| && j < |list| && ListedBefore(list[i], list[j])
    requires Numbered(list, ranks, list[i].parentId)
    ensures list[i].id in ranks && list[j].id in ranks && ranks[list[i].id] < ranks[list[j].id]
  {
    hide Numbered;
    var m := PlaceInGroup(list, ranks, i);
    var n := PlaceInGroup(list, ranks, j);
    BeforeIsEarlier(InOrder(Members(GroupIn(list, |list|, list[i].parentId))), m, n);
  }

  lemma BeforeIsEarlier(sorted: seq<Sibling>, m: nat, n: nat)
    requires Sorted(sorted) && m < |sorted| && n < |sorted| && Before(sorted[m], sorted[n])
    ensures m < n
  {
    assert !Before(sorted[n], sorted[m]);
  }

  lemma PlaceInGroup(list: seq<PortableItem>, ranks: map<Id, Rank>, i: nat) returns (m: nat)
    requires i < |list| && Numbered(list, ranks, list[i].parentId)
    ensures var sorted := InOrder(Members(GroupIn(list, |list|, list[i].parentId)));
      m < |sorted| && sorted[m] == SiblingOf(list[i])
    ensures list[i].id in ranks && ranks[list[i].id] == m as real
  {
    var group := GroupIn(list, |list|, list[i].parentId);
    GroupMember(list, |list|, list[i].parentId, SiblingOf(list[i]));
    assert SiblingOf(list[i]) in Members(InOrder(Members(group)));
    m :| 0 <= m < |InOrder(Members(group))| && InOrder(Members(group))[m] == SiblingOf(list[i]);
  }

  /** A document with the items of the outline under the new ids. */
  method InstantiatePortable(list: seq<PortableItem>, ids: map<Id, Id>) returns (verdict: Verdict, doc: Items)
    requires AreDistinct(list) ==> Renames(ids, OutlineOf(list))
    ensures verdict.Accepted? <==> AcceptableList(list)
    ensures verdict.Accepted? ==> AreDistinct(list) && Built(OutlineOf(list), ids, doc)
    ensures !verdict.Accepted? ==> doc == map[]
  {
    hide OutlineOf, AcceptableList, RanksFollow, Renames;
    doc := map[];
    verdict := ValidatePortable(list);
    if !verdict.Accepted? {
      return;
    }
    ListIsJudged(list);
    var ranks := RankItems(list);
    doc := WriteItems(list, ids, ranks);
  }

  method WriteItems(list: seq<PortableItem>, ids: map<Id, Id>, ranks: map<Id, Rank>) returns (doc: Items)
    requires AreDistinct(list) && Renames(ids, OutlineOf(list)) && RanksFollow(OutlineOf(list), ranks)
    ensures Built(OutlineOf(list), ids, doc)
  {
    hide RanksFollow, Renames, Writes, OutlineOf;
    ghost var outline := OutlineOf(list);
    ghost var done: set<Id> := {};
    NothingWritten(outline, ids, ranks);
    doc := map[];
    for n := 0 to |list|
      invariant Writes(outline, ids, ranks, done, doc)
      invariant forall i :: 0 <= i < |list| ==> (list[i].id in done <==> i < n)
    {
      ItemOfList(list, ids, ranks, n);
      WritesStep(outline, ids, ranks, done, doc, list[n].id);
      doc := doc[ids[list[n].id] := NewItem(ids, list[n], ranks[list[n].id])];
      done := done + {list[n].id};
    }
    EverythingWritten(list, ids, ranks, done, doc);
  }

  lemma NothingWritten(outline: Outline, ids: map<Id, Id>, ranks: map<Id, Rank>)
    requires Renames(ids, outline) && RanksFollow(outline, ranks)
    ensures Writes(outline, ids, ranks, {}, map[])
  {
  }

  lemma ItemOfList(list: seq<PortableItem>, ids: map<Id, Id>, ranks: map<Id, Rank>, n: nat)
    requires AreDistinct(list) && n < |list| && Renames(ids, OutlineOf(list)) && RanksFollow(OutlineOf(list), ranks)
    ensures list[n].id in OutlineOf(list) && OutlineOf(list)[list[n].id] == list[n]
    ensures list[n].id in ids && list[n].id in ranks
  {
  }

  lemma WritesAll(outline: Outline, ids: map<Id, Id>, ranks: map<Id, Rank>, done: set<Id>, doc: Items)
    requires Writes(outline, ids, ranks, done, doc) && outline.Keys <= done
    ensures Writes(outline, ids, ranks, outline.Keys, doc)
  {
    hide NewItem;
  }

  lemma EverythingWritten(list: seq<PortableItem>, ids: map<Id, Id>, ranks: map<Id, Rank>, done: set<Id>, doc: Items)
    requires AreDistinct(list) && RanksFollow(OutlineOf(list), ranks)
    requires Writes(OutlineOf(list), ids, ranks, done, doc) && forall i :: 0 <= i < |list| ==> list[i].id in done
    ensures Built(OutlineOf(list), ids, doc)
  {
    hide NewItem, RanksFollow;
    assert OutlineOf(list).Keys <= done;
    WritesAll(OutlineOf(list), ids, ranks, done, doc);
  }
}
