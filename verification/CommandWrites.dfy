/**
 What each structural command writes, register by register, on any document:
 recovered items, hidden items, ties and missing ids included.
 */
module CommandWrites {
  import opened Collections
  import opened TreeTheory
  import opened Siblings
  import opened EffectiveTree
  import opened OutlineModel
  import opened OutlineIndex
  import opened OutlineMoves
  import opened OutlineMerge
  import opened OutlineDoc

  /** One placement write: parent and a rank between the bounds; everything else stays. */
  ghost predicate PlacedBetween(before: Items, after: Items, id: Id, to: Id, lower: Option<Rank>, upper: Option<Rank>)
    requires id in before
  {
    && id in after && (lower.Some? ==> lower.value < after[id].rank) && (upper.Some? ==> after[id].rank < upper.value)
    && after == before[id := Item(to, after[id].rank, before[id].isDeleted, before[id].content, before[id].isCompleted)]
  }

  /** One creation: an empty, open, live item under `to` at a rank between the bounds. */
  ghost predicate CreatedBetween(before: Items, after: Items, id: Id, to: Id, lower: Option<Rank>, upper: Option<Rank>) {
    && id in after && (lower.Some? ==> lower.value < after[id].rank) && (upper.Some? ==> after[id].rank < upper.value)
    && after == before[id := Item(to, after[id].rank, false, "", false)]
  }

  /**
   One attempt to place an item: without room between the bounds it throws and
   writes nothing; the root keeps its place.
   */
  ghost predicate Attempted(before: Items, after: Items, root: Id, id: Id, to: Id, lower: Option<Rank>,
                            upper: Option<Rank>, outcome: Outcome)
    requires id in before
  {
    if Equal(lower, upper) then outcome == Threw && after == before
    else if id == root && to != ROOT_PARENT_SENTINEL then outcome == Done && after == before
    else outcome == Done && PlacedBetween(before, after, id, to, lower, upper)
  }

  ghost predicate AttemptedNew(before: Items, after: Items, root: Id, id: Id, to: Id, lower: Option<Rank>,
                               upper: Option<Rank>, outcome: Outcome) {
    if Equal(lower, upper) then outcome == Threw && after == before
    else if id == root && to != ROOT_PARENT_SENTINEL then outcome == Done && after == before
    else outcome == Done && CreatedBetween(before, after, id, to, lower, upper)
  }

  function RankOf(s: seq<Sibling>, i: int): Option<Rank> {
    if 0 <= i < |s| then Some(s[i].rank) else None
  }

  ghost predicate Equal(a: Option<Rank>, b: Option<Rank>) {
    a.Some? && b.Some? && a.value == b.value
  }

  /** Number `i` of the list is the only entry of its item. */
  lemma ListedAt(items: Items, root: Id, p: Id, i: nat)
    requires i < |Children(items, root, p)|
    ensures var s := Children(items, root, p);
      IndexIn(Ids(s), s[i].id) == i && s[i].id != root && s[i].id in items
  {
    hide Children, IndexIn;
    var s := Children(items, root, p);
    var k := IndexIn(Ids(s), s[i].id);
    assert Ids(s)[i] == s[i].id;
    if k < i {
      ListedOnce(items, root, p, k, i);
    } else if i < k {
      ListedOnce(items, root, p, i, k);
    }
    assert s[i].id in ChildIds(items, root, p);
    ListedIsBelowRoot(items, root, p, s[i].id);
  }

  lemma Unlisted(s: seq<Sibling>, id: Id)
    requires forall i :: 0 <= i < |s| ==> s[i].id != id
    ensures IndexIn(Ids(s), id) == -1
  {
  }

  lemma WritesPlace(before: Items, after: Items, root: Id, id: Id, to: Id, s: seq<Sibling>, c: nat)
    requires id in before && OutlineDoc.Writes(before, after, root, id, to, s, c)
    requires id != root || to == ROOT_PARENT_SENTINEL
    ensures PlacedBetween(before, after, id, to, RankOf(s, c - 1), RankOf(s, c))
  {
  }

  /** Indent: under the previous sibling, behind its children; nothing for a first or unlisted item. */
  lemma IndentWrites(before: Items, after: Items, root: Id, id: Id, outcome: Outcome)
    requires IndentStep(before, after, root, id, outcome)
    ensures id !in before ==> outcome == NoOp && after == before
    ensures id in before ==>
      var s := Children(before, root, before[id].parentId);
      && ((forall i :: 0 < i < |s| ==> s[i].id != id) ==> outcome == NoOp && after == before)
      && (forall i :: 0 < i < |s| && s[i].id == id ==>
            var t := Children(before, root, s[i - 1].id);
            outcome == Done && PlacedBetween(before, after, id, s[i - 1].id, RankOf(t, |t| - 1), None))
  {
    hide Children, IndexIn, Ids, PlacedBetween;
    if id in before {
      var s := Children(before, root, before[id].parentId);
      if i :| 0 <= i < |s| && s[i].id == id {
        ListedAt(before, root, before[id].parentId, i);
        if i > 0 {
          var t := Children(before, root, s[i - 1].id);
          WritesPlace(before, after, root, id, s[i - 1].id, t, |t|);
          assert RankOf(t, |t|) == None;
        }
        forall j | 0 < j < |s| && s[j].id == id
          ensures j == i
        {
          ListedAt(before, root, before[id].parentId, j);
        }
      } else {
        Unlisted(s, id);
      }
    }
  }

  ghost predicate HasLevelAbove(items: Items, id: Id) {
    id in items && items[id].parentId in items && items[items[id].parentId].parentId != ROOT_PARENT_SENTINEL
  }

  /** Outdent: under the grandparent, between the parent and the parent's next sibling. */
  lemma OutdentWrites(before: Items, after: Items, root: Id, id: Id, outcome: Outcome)
    requires OutdentStep(before, after, root, id, outcome)
    ensures !HasLevelAbove(before, id) ==> outcome == NoOp && after == before
    ensures HasLevelAbove(before, id) ==>
      var p := before[id].parentId;
      var to := before[p].parentId;
      var s := Children(before, root, to);
      && ((forall i :: 0 <= i < |s| ==> s[i].id != p) ==> outcome == TypeError && after == before)
      && (forall i :: 0 <= i < |s| && s[i].id == p ==>
            Attempted(before, after, root, id, to, RankOf(s, i), RankOf(s, i + 1), outcome))
  {
    hide Children, IndexIn, Ids, PlacedBetween;
    if HasLevelAbove(before, id) {
      var p := before[id].parentId;
      var to := before[p].parentId;
      var s := Children(before, root, to);
      if i :| 0 <= i < |s| && s[i].id == p {
        ListedAt(before, root, to, i);
        assert Tie(s, i + 1) <==> Equal(RankOf(s, i), RankOf(s, i + 1));
        if outcome.Done? && id != root {
          WritesPlace(before, after, root, id, to, s, i + 1);
        }
        forall j | 0 <= j < |s| && s[j].id == p
          ensures j == i
        {
          ListedAt(before, root, to, j);
        }
      } else {
        Unlisted(s, p);
      }
    }
  }

  /** Up or down: between the two ranks before the previous sibling, or behind the next one. */
  lemma SwapWrites(before: Items, after: Items, root: Id, id: Id, up: bool, outcome: Outcome)
    requires SwapStep(before, after, root, id, up, outcome)
    ensures id !in before ==> outcome == NoOp && after == before
    ensures id in before ==>
      var to := before[id].parentId;
      var s := Children(before, root, to);
      && ((forall i :: 0 <= i < |s| ==> s[i].id != id) ==> outcome == NoOp && after == before)
      && (forall i :: 0 <= i < |s| && s[i].id == id ==>
            var lower, upper := if up then RankOf(s, i - 2) else RankOf(s, i + 1), if up then RankOf(s, i - 1) else RankOf(s, i + 2);
            if (if up then i == 0 else i == |s| - 1) then outcome == NoOp && after == before
            else if Equal(lower, upper) then outcome == Threw && after == before
            else outcome == Done && PlacedBetween(before, after, id, to, lower, upper))
  {
    hide Children, IndexIn, Ids, PlacedBetween;
    if id in before {
      var to := before[id].parentId;
      var s := Children(before, root, to);
      if i :| 0 <= i < |s| && s[i].id == id {
        ListedAt(before, root, to, i);
        if outcome.Done? {
          WritesPlace(before, after, root, id, to, s, if up then i - 1 else i + 2);
        }
        forall j | 0 <= j < |s| && s[j].id == id
          ensures j == i
        {
          ListedAt(before, root, to, j);
        }
      } else {
        Unlisted(s, id);
      }
    }
  }

  /** The place right behind `afterId`, or the first one when it is absent or not listed. */
  ghost predicate IsGap(s: seq<Sibling>, afterId: Option<Id>, c: nat) {
    && c <= |s|
    && (c == 0 ==> afterId.None? || forall i :: 0 <= i < |s| ==> s[i].id != afterId.value)
    && (c > 0 ==> afterId.Some? && s[c - 1].id == afterId.value)
  }

  lemma GapIsGap(s: seq<Sibling>, afterId: Option<Id>)
    ensures IsGap(s, afterId, GapAfter(Ids(s), afterId))
  {
    hide IndexIn;
    var ids := Ids(s);
    if afterId.Some? && IndexIn(ids, afterId.value) < 0 {
      forall i | 0 <= i < |s|
        ensures s[i].id != afterId.value
      {
        assert ids[i] == s[i].id;
      }
    }
  }

  /** `a` is `id` itself or met on the way up along the placements as they are written. */
  ghost predicate RawAbove(items: Items, a: Id, id: Id) {
    Above(map x | x in items :: items[x].parentId, a, id)
  }

  /** Move: refused into the own raw subtree; otherwise into the gap asked for. */
  lemma DropWrites(before: Items, after: Items, root: Id, id: Id, to: Id, afterId: Option<Id>, outcome: Outcome)
    requires DropStep(before, after, root, id, to, afterId, outcome)
    ensures id !in before || RawAbove(before, id, to) ==> outcome == NoOp && after == before
    ensures id in before && !RawAbove(before, id, to) ==>
      var s := Children(before, root, to);
      exists c: nat :: IsGap(s, afterId, c)
        && Attempted(before, after, root, id, to, RankOf(s, c - 1), RankOf(s, c), outcome)
  {
    hide Children, IndexIn, Ids, PlacedBetween, IsGap;
    assert RawParentOf(before) == map x | x in before :: before[x].parentId;
    if id in before && !RawAbove(before, id, to) {
      var s := Children(before, root, to);
      var c: nat := GapAfter(Ids(s), afterId);
      GapIsGap(s, afterId);
      if outcome.Done? && (id != root || to == ROOT_PARENT_SENTINEL) {
        WritesPlace(before, after, root, id, to, s, c);
      }
      TieIsEqual(s, c);
    }
  }

  /** Insert: an item enters the gap asked for, created if it is not there, or nothing is written. */
  lemma InsertWrites(before: Items, after: Items, root: Id, newId: Id, to: Id, afterId: Option<Id>, outcome: Outcome)
    requires InsertStep(before, after, root, newId, to, afterId, outcome)
    ensures var s := Children(before, root, to);
      exists c: nat :: IsGap(s, afterId, c)
        && if newId in before then Attempted(before, after, root, newId, to, RankOf(s, c - 1), RankOf(s, c), outcome)
           else AttemptedNew(before, after, root, newId, to, RankOf(s, c - 1), RankOf(s, c), outcome)
  {
    hide Children, IndexIn, Ids, IsGap;
    var s := Children(before, root, to);
    var c: nat := GapAfter(Ids(s), afterId);
    GapIsGap(s, afterId);
    TieIsEqual(s, c);
    if newId in before && outcome.Done? && (newId != root || to == ROOT_PARENT_SENTINEL) {
      WritesPlace(before, after, root, newId, to, s, c);
    }
  }

  lemma TieIsEqual(s: seq<Sibling>, c: nat)
    ensures Tie(s, c) <==> Equal(RankOf(s, c - 1), RankOf(s, c))
  {
  }

  // ---------- where a placed item is shown ----------

  ghost predicate ShownBehind(s: seq<Id>, y: Id, x: Id) {
    exists i :: 0 < i < |s| && s[i - 1] == y && s[i] == x
  }

  /** Right behind `afterId`, or in front of all others when it is absent or not listed. */
  ghost predicate ShownAfter(was: seq<Id>, now: seq<Id>, afterId: Option<Id>, x: Id) {
    if afterId.Some? && afterId.value in was then ShownBehind(now, afterId.value, x) else now == [x] + Without(was, x)
  }

  lemma GapShows(was: seq<Id>, afterId: Option<Id>, x: Id)
    requires afterId != Some(x)
    ensures ShownAfter(was, IntoGap(was, x, GapAfter(was, afterId)), afterId, x)
  {
    var c := GapAfter(was, afterId);
    if c > 0 {
      assert was[..c] == was[..c - 1] + [afterId.value];
      WithoutConcat(was[..c - 1], [afterId.value], x);
      var front := Without(was[..c - 1], x);
      assert Without([afterId.value], x) == [afterId.value];
      var now := front + [afterId.value] + [x] + Without(was[c..], x);
      assert now[|front|] == afterId.value && now[|front| + 1] == x;
    } else {
      assert was[..0] == [] && was[0..] == was;
    }
  }

  /** A created item is shown right behind `afterId`, or first. */
  lemma InsertIsShown(before: Items, after: Items, root: Id, newId: Id, to: Id, afterId: Option<Id>)
    requires CanInsert(before, root, newId, to) && afterId != Some(newId)
    requires InsertStep(before, after, root, newId, to, afterId, Done)
    ensures ShownAfter(ChildIds(before, root, to), ChildIds(after, root, to), afterId, newId)
  {
    hide CanInsert, InsertStep, ChildIds, GapAfter, IntoGap, ShownAfter;
    InsertMeets(before, after, root, newId, to, afterId, Done);
    GapShows(ChildIds(before, root, to), afterId, newId);
  }

  /** A moved item is shown right behind `afterId`, or first, and nowhere else. */
  lemma DropIsShown(before: Items, after: Items, root: Id, id: Id, to: Id, afterId: Option<Id>)
    requires Ready(before, root, id) && (Live(before, root, to) || to == root) && afterId != Some(id)
    requires DropStep(before, after, root, id, to, afterId, Done)
    ensures ShownAfter(ChildIds(before, root, to), ChildIds(after, root, to), afterId, id)
    ensures forall p :: p != to ==> ChildIds(after, root, p) == Without(ChildIds(before, root, p), id)
  {
    hide Ready, DropStep, Live, ChildIds, GapAfter, IntoGap, ShownAfter;
    DropMeets(before, after, root, id, to, afterId, Done);
    GapShows(ChildIds(before, root, to), afterId, id);
  }

  /** Where the caret divides the text: inside it, or at the nearer end. */
  ghost predicate IsCaret(offset: int, length: nat, at: nat) {
    if offset < 0 then at == 0 else if offset <= length then at == offset else at == length
  }

  /**
   The text is cut at `at`; then the new item, empty of everything else, opens
   between the bounds with the rest, or nothing more is written.
   */
  ghost predicate SplitAt(before: Items, after: Items, id: Id, newId: Id, at: nat, lower: Option<Rank>,
                          upper: Option<Rank>, outcome: Outcome)
    requires id in before && at <= |before[id].content|
  {
    var it := before[id];
    var cut := before[id := Item(it.parentId, it.rank, it.isDeleted, it.content[..at], it.isCompleted)];
    if Equal(lower, upper) then outcome == Threw && after == cut
    else
      && outcome == Done && newId in after
      && after == cut[newId := Item(it.parentId, after[newId].rank, false, it.content[at..], false)]
      && (lower.Some? ==> lower.value < after[newId].rank) && (upper.Some? ==> after[newId].rank < upper.value)
  }

  /** Split: the text is cut at the caret, and the rest opens the next sibling unless a tie stands behind the item. */
  lemma SplitWrites(before: Items, after: Items, root: Id, id: Id, offset: int, newId: Id, outcome: Outcome)
    requires SplitStep(before, after, root, id, offset, newId, outcome)
    requires id in before && newId !in before && newId != root
    ensures var s := Children(before, root, before[id].parentId);
      exists at: nat, c: nat ::
        && IsCaret(offset, |before[id].content|, at) && at <= |before[id].content| && IsGap(s, Some(id), c)
        && SplitAt(before, after, id, newId, at, RankOf(s, c - 1), RankOf(s, c), outcome)
  {
    hide Children, IndexIn, Ids, IsGap, InsertStep, Filled, Equal, RankOf;
    var it := before[id];
    var at: nat := Clamp(offset, |it.content|);
    var cut := before[id := Item(it.parentId, it.rank, it.isDeleted, it.content[..at], it.isCompleted)];
    assert cut == WithText(before, id, it.content[..at]);
    var placed: Items :|
      && InsertStep(cut, placed, root, newId, it.parentId, Some(id), outcome)
      && after == Filled(placed, newId, it.content[at..], outcome);
    InsertWrites(cut, placed, root, newId, it.parentId, Some(id), outcome);
    SameChildren(before, cut, root, id, it.parentId);
    var s := Children(before, root, it.parentId);
    var c: nat :| IsGap(s, Some(id), c)
      && AttemptedNew(cut, placed, root, newId, it.parentId, RankOf(s, c - 1), RankOf(s, c), outcome);
    FilledIs(placed, newId, it.content[at..], outcome);
    assert it.content[at..] + "" == it.content[at..];
    assert IsCaret(offset, |it.content|, at);
    assert SplitAt(before, after, id, newId, at, RankOf(s, c - 1), RankOf(s, c), outcome);
  }

  lemma FilledIs(placed: Items, newId: Id, rest: string, outcome: Outcome)
    ensures outcome != Done ==> Filled(placed, newId, rest, outcome) == placed
    ensures outcome == Done && newId in placed ==>
      var it := placed[newId];
      Filled(placed, newId, rest, outcome)
        == placed[newId := Item(it.parentId, it.rank, it.isDeleted, rest + it.content, it.isCompleted)]
  {
  }

  lemma SameChildren(before: Items, cut: Items, root: Id, id: Id, p: Id)
    requires id in before && cut.Keys == before.Keys && SameStructure(before, cut)
    ensures Children(cut, root, p) == Children(before, root, p)
  {
    OutlineIgnoresText(before, cut, root);
  }

  // ---------- merging ----------

  /**
   Everything a merge leaves, on any document: the target's text is followed by the
   item's, the item is a tombstone, its live children are under the target in their
   order behind the target's own, and no other register of any item has changed.
   */
  ghost predicate MergeLeaves(before: Items, after: Items, root: Id, id: Id, target: Id)
    requires id in before && target in before
  {
    var orphans := ChildIds(before, root, id);
    var last := RankOf(Children(before, root, target), |Children(before, root, target)| - 1);
    && after.Keys == before.Keys
    && after[target].content == before[target].content + before[id].content
    && (forall z :: z in before && z != target ==> after[z].content == before[z].content)
    && (forall z :: z in before ==> after[z].isCompleted == before[z].isCompleted)
    && (forall z :: z in before ==> after[z].isDeleted == (before[z].isDeleted || (z == id && id != root)))
    && (forall z :: z in before && z !in orphans ==>
          after[z].parentId == before[z].parentId && after[z].rank == before[z].rank)
    && (forall i :: 0 <= i < |orphans| ==> orphans[i] in after && after[orphans[i]].parentId == target)
    && (forall i :: 0 <= i < |orphans| && last.Some? ==> last.value < after[orphans[i]].rank)
    && forall i, j :: 0 <= i < j < |orphans| ==> after[orphans[i]].rank < after[orphans[j]].rank
  }

  /** What the adoption of `ids` leaves of item `z`. */
  ghost predicate AdoptedItem(items: Items, after: Items, target: Id, ids: seq<Id>, ranks: seq<Rank>, z: Id)
    requires |ids| == |ranks|
  {
    && z in items && z in after
    && after[z].content == items[z].content && after[z].isCompleted == items[z].isCompleted
    && after[z].isDeleted == items[z].isDeleted
    && (z !in ids ==> after[z].parentId == items[z].parentId && after[z].rank == items[z].rank)
    && forall i :: 0 <= i < |ids| && ids[i] == z ==> after[z].parentId == target && after[z].rank == ranks[i]
  }

  lemma {:induction false} AdoptedAre(items: Items, target: Id, ids: seq<Id>, ranks: seq<Rank>, z: Id)
    requires AllIn(items, ids, target) && |ids| == |ranks| && AllDifferent(ids) && z in items
    ensures AdoptedItem(items, AdoptAll(items, target, ids, ranks), target, ids, ranks, z)
  {
    if ids != [] {
      var n := |ids| - 1;
      AdoptedAre(items, target, ids[..n], ranks[..n], z);
      assert z in ids <==> z in ids[..n] || z == ids[n];
    }
  }

  lemma {:induction false} AscendingAll(last: Option<Rank>, ranks: seq<Rank>, i: nat, j: nat)
    requires Ascending(last, ranks) && i < |ranks| && j < |ranks|
    ensures last.Some? ==> last.value < ranks[i]
    ensures i < j ==> ranks[i] < ranks[j]
    decreases i + j
  {
    if i > 0 {
      AscendingAll(last, ranks, i - 1, 0);
    }
    if i < j {
      AscendingAll(last, ranks, i, j - 1);
    }
  }

  lemma MergeWrites(before: Items, after: Items, root: Id, id: Id, target: Id, ranks: seq<Rank>)
    requires id in before && target in before && MergeStep(before, after, root, id, target, ranks)
    ensures MergeLeaves(before, after, root, id, target)
  {
    hide MergeLeaves, MergedItem, Ascending, Children, ChildIds, AdoptAll, JoinTexts, Tombstoned;
    var orphans := ChildIds(before, root, id);
    OrphansDiffer(before, root, id);
    MergeKeys(before, after, root, id, target, ranks);
    forall z | z in before
      ensures MergedItem(before, after, root, id, target, orphans, ranks, z)
    {
      MergedOne(before, after, root, id, target, ranks, z);
    }
    LastRankIs(Children(before, root, target));
    MergeConcludes(before, after, root, id, target, orphans, Children(before, root, target), ranks);
  }

  lemma MergeKeys(before: Items, after: Items, root: Id, id: Id, target: Id, ranks: seq<Rank>)
    requires id in before && target in before && MergeStep(before, after, root, id, target, ranks)
    ensures after.Keys == before.Keys
  {
    hide Children, Ascending;
    assert JoinTexts(before, id, target).Keys == before.Keys;
  }

  lemma MergedOne(before: Items, after: Items, root: Id, id: Id, target: Id, ranks: seq<Rank>, z: Id)
    requires id in before && target in before && MergeStep(before, after, root, id, target, ranks) && z in before
    ensures MergedItem(before, after, root, id, target, ChildIds(before, root, id), ranks, z)
  {
    hide Children, AdoptAll, Ascending, ChildIds, AdoptedItem, MergedItem;
    var joined := JoinTexts(before, id, target);
    var orphans := ChildIds(before, root, id);
    var adopted := AdoptAll(joined, target, orphans, ranks);
    OrphansDiffer(before, root, id);
    AdoptedAre(joined, target, orphans, ranks, z);
    MergedIs(before, joined, adopted, after, root, id, target, orphans, ranks, z);
  }

  lemma MergeConcludes(before: Items, after: Items, root: Id, id: Id, target: Id, orphans: seq<Id>, t: seq<Sibling>,
                       ranks: seq<Rank>)
    requires id in before && target in before && |ranks| == |orphans| && after.Keys == before.Keys
    requires forall z :: z in before ==> MergedItem(before, after, root, id, target, orphans, ranks, z)
    requires forall x :: x in orphans ==> x in before
    requires orphans == ChildIds(before, root, id) && t == Children(before, root, target)
    requires LastRank(t) == RankOf(t, |t| - 1) && Ascending(LastRank(t), ranks)
    ensures MergeLeaves(before, after, root, id, target)
  {
    hide Children, ChildIds, Ascending, LastRank, RankOf;
    forall i | 0 <= i < |orphans|
      ensures orphans[i] in after && after[orphans[i]].parentId == target && after[orphans[i]].rank == ranks[i]
    {
      assert orphans[i] in orphans;
      assert MergedItem(before, after, root, id, target, orphans, ranks, orphans[i]);
    }
    var last := LastRank(t);
    forall i, j | 0 <= i < |orphans| && 0 <= j < |orphans|
      ensures last.Some? ==> last.value < ranks[i]
      ensures i < j ==> ranks[i] < ranks[j]
    {
      AscendingAll(last, ranks, i, j);
    }
  }

  /** What the merge leaves of item `z`. */
  ghost predicate MergedItem(before: Items, after: Items, root: Id, id: Id, target: Id, orphans: seq<Id>,
                             ranks: seq<Rank>, z: Id)
    requires id in before && target in before && |ranks| == |orphans|
  {
    && z in before && z in after
    && after[z].content == (if z == target then before[target].content + before[id].content else before[z].content)
    && after[z].isCompleted == before[z].isCompleted
    && after[z].isDeleted == (before[z].isDeleted || (z == id && id != root))
    && (z !in orphans ==> after[z].parentId == before[z].parentId && after[z].rank == before[z].rank)
    && forall i :: 0 <= i < |orphans| && orphans[i] == z ==> after[z].parentId == target && after[z].rank == ranks[i]
  }

  lemma MergedIs(before: Items, joined: Items, adopted: Items, after: Items, root: Id, id: Id, target: Id,
                 orphans: seq<Id>, ranks: seq<Rank>, z: Id)
    requires id in before && target in before && |ranks| == |orphans| && z in before && id in adopted
    requires joined == JoinTexts(before, id, target) && AdoptedItem(joined, adopted, target, orphans, ranks, z)
    requires after == if id == root then adopted else Tombstoned(adopted, id)
    ensures MergedItem(before, after, root, id, target, orphans, ranks, z)
  {
  }

  lemma OrphansDiffer(items: Items, root: Id, p: Id)
    ensures AllDifferent(ChildIds(items, root, p))
    ensures forall x :: x in ChildIds(items, root, p) ==> x in items
  {
    ListsAllDifferent(items, root, p);
    OrphansExist(items, root, p);
  }

  lemma LastRankIs(s: seq<Sibling>)
    ensures LastRank(s) == RankOf(s, |s| - 1)
  {
  }
}
