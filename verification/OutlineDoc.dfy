/**
 The live outline document: items, transactions, the cached index and the
 structural commands of the editor. Every placement change is one write of one
 item's placement register.
 */
module OutlineDoc {
  import opened Collections
  import opened TreeTheory
  import opened Siblings
  import opened EffectiveTree
  import opened OutlineModel
  import opened OutlineIndex
  import opened OutlineMoves
  import opened OutlineMerge

  // `Threw`: no rank fits between two tied ones, an exception after the writes the
  // contract states. `TypeError`: the command read a property of a missing entry.
  datatype Outcome = Done | NoOp | Threw | TypeError

  class Document {
    const rootId: Id
    var items: Items
    var inTransaction: bool
    var structureChanged: bool // the running transaction changed more than text
    var index: Index
    var dirty: bool

    /**
     Outside transactions a clean index equals a fresh derivation; inside one it
     may lag behind as soon as the structure has changed.
     */
    ghost predicate Coherent()
      reads this
    {
      && (!dirty && !structureChanged ==> index == IndexOf(items, rootId))
      && (!inTransaction ==> !structureChanged)
      && ROOT_PARENT_SENTINEL !in items && rootId != ROOT_PARENT_SENTINEL
    }

    constructor (rootId: Id, items: Items)
      requires ROOT_PARENT_SENTINEL !in items && rootId != ROOT_PARENT_SENTINEL
      ensures Coherent() && this.rootId == rootId && this.items == items && !inTransaction
    {
      this.rootId := rootId;
      this.items := items;
      inTransaction, structureChanged := false, false;
      index := Index(map[], map[], {});
      dirty := true;
    }

    // ---------- transactions and the index ----------

    method Begin()
      requires Coherent() && !inTransaction
      modifies this`inTransaction
      ensures Coherent() && inTransaction
    {
      inTransaction := true;
    }

    /** End of the outermost transaction: the listener marks the index dirty unless only text changed. */
    method End()
      requires Coherent() && inTransaction
      modifies this`inTransaction, this`structureChanged, this`dirty
      ensures Coherent() && !inTransaction
      ensures dirty <==> old(dirty || structureChanged)
    {
      if structureChanged {
        dirty := true;
      }
      inTransaction, structureChanged := false, false;
    }

    /** Every read equals a fresh derivation, in a transaction and outside. */
    method OutlineIndex() returns (ix: Index)
      requires Coherent()
      modifies this`index, this`dirty
      ensures Coherent() && ix == IndexOf(items, rootId)
    {
      if !dirty && !inTransaction {
        return index;
      }
      index := BuildIndex(items, rootId);
      dirty := false;
      ix := index;
    }

    method GetChildren(parentId: Id) returns (s: seq<Sibling>)
      requires Coherent()
      modifies this`index, this`dirty
      ensures Coherent() && s == Children(items, rootId, parentId) && Sorted(s)
      ensures forall i, j :: 0 <= i < j < |s| ==>
        s[i].rank < s[j].rank || (s[i].rank == s[j].rank && s[i].id.n < s[j].id.n)
    {
      var ix := OutlineIndex();
      ListedIsChildren(items, rootId, parentId);
      s := Listed(ix, parentId);
    }

    // ---------- register writes ----------

    /** Replace the placement register, creating the item if needed. The root's placement is fixed. */
    method WriteMove(id: Id, parentId: Id, rank: Rank)
      requires Coherent() && id != ROOT_PARENT_SENTINEL
      modifies this
      ensures Coherent() && inTransaction == old(inTransaction)
      ensures items ==
        if id == rootId && parentId != ROOT_PARENT_SENTINEL then old(items)
        else if id in old(items) then Moved(old(items), id, parentId, rank)
        else Inserted(old(items), id, parentId, rank)
      ensures id != rootId || parentId == ROOT_PARENT_SENTINEL ==>
        items == old(items)[id := if id in old(items)
          then Item(parentId, rank, old(items)[id].isDeleted, old(items)[id].content, old(items)[id].isCompleted)
          else Item(parentId, rank, false, "", false)]
    {
      if id == rootId && parentId != ROOT_PARENT_SENTINEL {
        return;
      }
      var outermost := !inTransaction;
      if outermost {
        Begin();
      }
      if id in items {
        items := items[id := items[id].(parentId := parentId, rank := rank)];
      } else {
        items := items[id := Item(parentId, rank, false, "", false)];
      }
      structureChanged := true;
      if outermost {
        End();
      }
    }

    method WriteDeleted(id: Id, isDeleted: bool)
      requires Coherent()
      modifies this
      ensures Coherent() && inTransaction == old(inTransaction)
      ensures items ==
        if id == rootId || id !in old(items) then old(items)
        else old(items)[id := old(items)[id].(isDeleted := isDeleted)]
    {
      if id == rootId || id !in items {
        return;
      }
      var outermost := !inTransaction;
      if outermost {
        Begin();
      }
      items := items[id := items[id].(isDeleted := isDeleted)];
      structureChanged := true;
      if outermost {
        End();
      }
    }

    /** Text edits leave the index as good as it was. */
    method WriteText(id: Id, content: string)
      requires Coherent() && id in items
      modifies this
      ensures Coherent() && inTransaction == old(inTransaction)
      ensures items == old(items)[id := old(items)[id].(content := content)]
      ensures structureChanged == old(structureChanged) && dirty == old(dirty) && index == old(index)
    {
      var outermost := !inTransaction;
      if outermost {
        Begin();
      }
      IndexIgnoresText(items, items[id := items[id].(content := content)], rootId);
      items := items[id := items[id].(content := content)];
      if outermost {
        End();
      }
    }

    /** A completion flag is not text: the index is marked dirty although the outline is the same. */
    method WriteCompleted(id: Id, isCompleted: bool)
      requires Coherent() && id in items
      modifies this
      ensures Coherent() && inTransaction == old(inTransaction)
      ensures items == old(items)[id := old(items)[id].(isCompleted := isCompleted)]
      ensures !inTransaction ==> dirty
    {
      var outermost := !inTransaction;
      if outermost {
        Begin();
      }
      items := items[id := items[id].(isCompleted := isCompleted)];
      structureChanged := true;
      if outermost {
        End();
      }
    }

    /** A merged update of someone else; `textOnly` when no register was touched. */
    method ApplyUpdate(merged: Items, textOnly: bool)
      requires Coherent() && !inTransaction && ROOT_PARENT_SENTINEL !in merged
      requires textOnly ==> SameStructure(items, merged)
      modifies this
      ensures Coherent() && !inTransaction && items == merged
      ensures textOnly ==> dirty == old(dirty) && index == old(index)
    {
      Begin();
      if textOnly {
        IndexIgnoresText(items, merged, rootId);
      } else {
        structureChanged := true;
      }
      items := merged;
      End();
    }

    // ---------- commands ----------

    /** The item becomes the last child of its previous sibling. */
    method Indent(id: Id) returns (outcome: Outcome)
      requires Coherent()
      modifies this
      ensures Coherent() && inTransaction == old(inTransaction)
      ensures IndentStep(old(items), items, rootId, id, outcome)
    {
      hide Children, IndexIn, Ids, IndexOf, Sorted;
      if id !in items {
        return NoOp;
      }
      var parentId := items[id].parentId;
      var siblings := GetChildren(parentId);
      var idx := IndexIn(Ids(siblings), id);
      if idx <= 0 {
        return NoOp;
      }
      var prevId := siblings[idx - 1].id;
      var newSiblings := GetChildren(prevId);
      var rank := RankAt(newSiblings, |newSiblings|);
      ListedIsBelowRoot(items, rootId, parentId, id);
      WriteMove(id, prevId, rank.value);
      outcome := Done;
    }

    /** The item becomes the next sibling of its parent. */
    method Outdent(id: Id) returns (outcome: Outcome)
      requires Coherent()
      modifies this
      ensures Coherent() && inTransaction == old(inTransaction)
      ensures OutdentStep(old(items), items, rootId, id, outcome)
    {
      hide Children, IndexIn, Ids, IndexOf, Sorted;
      if id !in items {
        return NoOp;
      }
      var parentId := items[id].parentId;
      if parentId !in items {
        return NoOp;
      }
      var grandparentId := items[parentId].parentId;
      if grandparentId == ROOT_PARENT_SENTINEL {
        return NoOp;
      }
      var parentSiblings := GetChildren(grandparentId);
      var parentIdx := IndexIn(Ids(parentSiblings), parentId);
      if parentIdx < 0 {
        return TypeError; // the parent is not a live child of its raw parent
      }
      var rank := RankAt(parentSiblings, parentIdx + 1);
      if rank.None? {
        return Threw;
      }
      WriteMove(id, grandparentId, rank.value);
      outcome := Done;
    }

    /** The item trades places with its previous or its next sibling. */
    method MoveWithinSiblings(id: Id, up: bool) returns (outcome: Outcome)
      requires Coherent()
      modifies this
      ensures Coherent() && inTransaction == old(inTransaction)
      ensures SwapStep(old(items), items, rootId, id, up, outcome)
    {
      hide Children, IndexIn, Ids, IndexOf, Sorted;
      if id !in items {
        return NoOp;
      }
      var parentId := items[id].parentId;
      var siblings := GetChildren(parentId);
      var idx := IndexIn(Ids(siblings), id);
      if idx < 0 {
        return NoOp;
      }
      if if up then idx == 0 else idx == |siblings| - 1 {
        return NoOp;
      }
      var rank := RankAt(siblings, if up then idx - 1 else idx + 2);
      if rank.None? {
        return Threw;
      }
      ListedIsBelowRoot(items, rootId, parentId, id);
      WriteMove(id, parentId, rank.value);
      outcome := Done;
    }

    /** The walk along raw parents from `candidateId` meets `ancestorId`. */
    method IsDescendantOf(candidateId: Id, ancestorId: Id) returns (r: bool)
      requires Coherent()
      ensures r <==> Above(RawParentOf(items), ancestorId, candidateId)
      ensures r <==> Above(map x | x in items :: items[x].parentId, ancestorId, candidateId)
    {
      ghost var g := RawParentOf(items);
      assert g == map x | x in items :: items[x].parentId;
      AboveStepSelf(g, candidateId);
      if candidateId == ancestorId {
        return true;
      }
      var cur := candidateId;
      var seen: set<Id> := {};
      ghost var n: nat := 0;
      while cur in items
        invariant cur == Up(g, candidateId, n) && seen <= items.Keys
        invariant Missed(g, candidateId, ancestorId, n) && SeenOnWalk(g, candidateId, seen, n)
        decreases |items.Keys - seen|
      {
        var parentId := items[cur].parentId;
        assert parentId == Up(g, candidateId, n + 1);
        if parentId == ancestorId {
          return true;
        }
        if cur in seen {
          WalkRepeats(g, candidateId, n, ancestorId);
          return false;
        }
        SeenStep(g, candidateId, seen, n);
        StrictSubsetSize(items.Keys - (seen + {cur}), items.Keys - seen);
        seen := seen + {cur};
        cur := parentId;
        n := n + 1;
      }
      WalkEnds(g, candidateId, n, ancestorId);
      r := false;
    }

    /** The item goes under `newParentId`, right after `afterId` or first. */
    method MoveItem(id: Id, newParentId: Id, afterId: Option<Id>) returns (outcome: Outcome)
      requires Coherent()
      modifies this
      ensures Coherent() && inTransaction == old(inTransaction)
      ensures DropStep(old(items), items, rootId, id, newParentId, afterId, outcome)
    {
      hide Children, IndexIn, Ids, IndexOf, Sorted;
      var inside := IsDescendantOf(newParentId, id);
      if inside || newParentId == id {
        AboveStepSelf(RawParentOf(items), id);
        return NoOp;
      }
      if id !in items {
        return NoOp;
      }
      var siblings := GetChildren(newParentId);
      var c := GapAfter(Ids(siblings), afterId);
      var rank := RankAt(siblings, c);
      if rank.None? {
        return Threw;
      }
      WriteMove(id, newParentId, rank.value);
      outcome := Done;
    }

    /** A new item enters the children of `parentId`, right after `afterId` or first. */
    method InsertItem(newId: Id, parentId: Id, afterId: Option<Id>) returns (outcome: Outcome)
      requires Coherent() && newId != ROOT_PARENT_SENTINEL
      modifies this
      ensures Coherent() && inTransaction == old(inTransaction)
      ensures InsertStep(old(items), items, rootId, newId, parentId, afterId, outcome)
    {
      hide Children, IndexIn, Ids, IndexOf, Sorted;
      var siblings := GetChildren(parentId);
      var c := GapAfter(Ids(siblings), afterId);
      var rank := RankAt(siblings, c);
      if rank.None? {
        return Threw;
      }
      WriteMove(newId, parentId, rank.value);
      outcome := Done;
    }

    method DeleteItem(id: Id)
      requires Coherent() && id in items
      modifies this
      ensures Coherent() && inTransaction == old(inTransaction)
      ensures items == if id == rootId then old(items) else Tombstoned(old(items), id)
    {
      WriteDeleted(id, true);
    }

    /**
     Backspace at the start of a line: the text goes to the end of the target's
     text, the live children follow the target's own, and the item is deleted.
     */
    method MergeIntoPrevious(id: Id, targetId: Id) returns (merged: bool, ghost ranks: seq<Rank>)
      requires Coherent()
      modifies this
      ensures Coherent() && inTransaction == old(inTransaction)
      ensures merged <==> id in old(items) && targetId in old(items)
      ensures if merged then MergeStep(old(items), items, rootId, id, targetId, ranks) else items == old(items)
    {
      hide Children, IndexIn, Ids, IndexOf;
      ranks := [];
      if id !in items || targetId !in items {
        return false, ranks;
      }
      WriteText(targetId, items[targetId].content + items[id].content);
      TextsDoNotShow(old(items), rootId, id, targetId);
      var orphans := GetChildren(id);
      var targetChildren := GetChildren(targetId);
      OrphansExist(items, rootId, id);
      ranks := Adopt(targetId, Ids(orphans), targetChildren);
      DeleteItem(id);
      merged := true;
    }

    /** Place the orphans under the target, each behind the one before. */
    method Adopt(targetId: Id, orphans: seq<Id>, siblings: seq<Sibling>) returns (ghost ranks: seq<Rank>)
      requires Coherent() && AllIn(items, orphans, targetId) && rootId !in orphans
      modifies this
      ensures Coherent() && inTransaction == old(inTransaction)
      ensures |ranks| == |orphans| && Ascending(LastRank(siblings), ranks)
      ensures items == AdoptAll(old(items), targetId, orphans, ranks)
    {
      hide IndexOf;
      ranks := [];
      var lastRank := if siblings == [] then None else Some(siblings[|siblings| - 1].rank);
      for i := 0 to |orphans|
        invariant Coherent() && inTransaction == old(inTransaction)
        invariant |ranks| == i && Ascending(LastRank(siblings), ranks)
        invariant lastRank == if i > 0 then Some(ranks[i - 1]) else LastRank(siblings)
        invariant items == AdoptAll(old(items), targetId, orphans[..i], ranks)
      {
        var rank := RankBetween(lastRank, None);
        WriteMove(orphans[i], targetId, rank.value);
        AdoptNext(old(items), targetId, orphans, ranks, rank.value, i);
        ranks := ranks + [rank.value];
        lastRank := rank;
      }
      assert orphans[..|orphans|] == orphans;
    }

    /**
     Enter: the text after the caret moves to a new sibling right below. The
     truncation is written before the insert, so it stays when the insert throws.
     */
    method SplitItem(id: Id, offset: int, newId: Id) returns (outcome: Outcome)
      requires Coherent() && !inTransaction && newId != ROOT_PARENT_SENTINEL
      modifies this
      ensures Coherent() && !inTransaction
      ensures SplitStep(old(items), items, rootId, id, offset, newId, outcome)
    {
      if id !in items {
        return NoOp;
      }
      var parentId := items[id].parentId;
      var full := items[id].content;
      var at := Clamp(offset, |full|);
      Begin();
      TruncateAt(id, at);
      ghost var cut := items;
      outcome := InsertItem(newId, parentId, Some(id));
      ghost var placed := items;
      if outcome.Done? && newId in items {
        Prepend(newId, full[at..]);
      }
      End();
      assert InsertStep(cut, placed, rootId, newId, parentId, Some(id), outcome);
    }

    method TruncateAt(id: Id, at: nat)
      requires Coherent() && inTransaction && id in items && at <= |items[id].content|
      modifies this
      ensures Coherent() && inTransaction
      ensures items == WithText(old(items), id, old(items)[id].content[..at])
    {
      if |items[id].content[at..]| > 0 {
        WriteText(id, items[id].content[..at]);
      } else {
        assert items[id].content[..at] == items[id].content;
        SameTextIsNoWrite(items, id);
      }
    }

    method Prepend(id: Id, text: string)
      requires Coherent() && inTransaction && id in items
      modifies this
      ensures Coherent() && inTransaction
      ensures items == WithText(old(items), id, text + old(items)[id].content)
    {
      if |text| > 0 {
        WriteText(id, text + items[id].content);
      } else {
        assert text + items[id].content == items[id].content;
        SameTextIsNoWrite(items, id);
      }
    }
  }

  lemma SameTextIsNoWrite(items: Items, id: Id)
    requires id in items
    ensures WithText(items, id, items[id].content) == items
  {
  }

  lemma AdoptNext(items: Items, target: Id, ids: seq<Id>, ranks: seq<Rank>, r: Rank, i: nat)
    requires AllIn(items, ids, target) && i < |ids| && |ranks| == i
    ensures AdoptAll(items, target, ids[..i + 1], ranks + [r])
         == Moved(AdoptAll(items, target, ids[..i], ranks), ids[i], target, r)
  {
    assert ids[..i + 1][..i] == ids[..i] && (ranks + [r])[..i] == ranks;
  }

  lemma OrphansExist(items: Items, root: Id, id: Id)
    ensures root !in ChildIds(items, root, id)
    ensures forall x :: x in ChildIds(items, root, id) ==> x in items
  {
    forall x | x in ChildIds(items, root, id)
      ensures x in items && x != root
    {
      ListedAsKid(items, root, id, x);
    }
  }

  // ---------- what each command writes ----------

  /** `offset` brought into the bounds of the text. */
  function Clamp(offset: int, length: nat): (at: nat)
    ensures at <= length
  {
    if offset < 0 then 0 else if offset > length then length else offset
  }

  /** Everything a split writes; an exception leaves the truncation behind. */
  ghost predicate SplitStep(before: Items, after: Items, root: Id, id: Id, offset: int, newId: Id, outcome: Outcome) {
    if id !in before then outcome.NoOp? && after == before
    else
      var full := before[id].content;
      var at := Clamp(offset, |full|);
      var cut := WithText(before, id, full[..at]);
      exists placed: Items ::
        && InsertStep(cut, placed, root, newId, before[id].parentId, Some(id), outcome)
        && after == Filled(placed, newId, full[at..], outcome)
  }

  /** The new item's text once the remainder has been put in front of it. */
  function Filled(items: Items, newId: Id, rest: string, outcome: Outcome): Items {
    if outcome.Done? && newId in items then WithText(items, newId, rest + items[newId].content) else items
  }

  lemma ListedIsBelowRoot(items: Items, root: Id, p: Id, id: Id)
    requires id in ChildIds(items, root, p)
    ensures id != root && id in items
  {
    ListedAsKid(items, root, p, id);
  }

  /** The placement register as `WriteMove` leaves it: the root keeps its place. */
  ghost predicate Writes(before: Items, after: Items, root: Id, id: Id, to: Id, s: seq<Sibling>, c: nat)
    requires id in before
  {
    if id == root && to != ROOT_PARENT_SENTINEL then after == before
    else id in after && Fits(s, c, after[id].rank) && after == Moved(before, id, to, after[id].rank)
  }

  ghost predicate IndentStep(before: Items, after: Items, root: Id, id: Id, outcome: Outcome) {
    if id !in before then outcome.NoOp? && after == before
    else
      var siblings := Children(before, root, before[id].parentId);
      var k := IndexIn(Ids(siblings), id);
      if k <= 0 then outcome.NoOp? && after == before
      else
        var prevId := siblings[k - 1].id;
        var s := Children(before, root, prevId);
        outcome.Done? && Writes(before, after, root, id, prevId, s, |s|)
  }

  ghost predicate OutdentStep(before: Items, after: Items, root: Id, id: Id, outcome: Outcome) {
    if id !in before || before[id].parentId !in before
      || before[before[id].parentId].parentId == ROOT_PARENT_SENTINEL then outcome.NoOp? && after == before
    else
      var grandparentId := before[before[id].parentId].parentId;
      var s := Children(before, root, grandparentId);
      var k := IndexIn(Ids(s), before[id].parentId);
      if k < 0 then outcome.TypeError? && after == before
      else if Tie(s, k + 1) then outcome.Threw? && after == before
      else outcome.Done? && Writes(before, after, root, id, grandparentId, s, k + 1)
  }

  ghost predicate SwapStep(before: Items, after: Items, root: Id, id: Id, up: bool, outcome: Outcome) {
    if id !in before then outcome.NoOp? && after == before
    else
      var s := Children(before, root, before[id].parentId);
      var k := IndexIn(Ids(s), id);
      if k < 0 || (if up then k == 0 else k == |s| - 1) then outcome.NoOp? && after == before
      else
        var c := if up then k - 1 else k + 2;
        if Tie(s, c) then outcome.Threw? && after == before
        else outcome.Done? && Writes(before, after, root, id, before[id].parentId, s, c)
  }

  ghost predicate DropStep(before: Items, after: Items, root: Id, id: Id, to: Id, afterId: Option<Id>,
                           outcome: Outcome)
  {
    if Above(RawParentOf(before), id, to) || id !in before then outcome.NoOp? && after == before
    else
      var s := Children(before, root, to);
      var c := GapAfter(Ids(s), afterId);
      if Tie(s, c) then outcome.Threw? && after == before
      else outcome.Done? && Writes(before, after, root, id, to, s, c)
  }

  ghost predicate InsertStep(before: Items, after: Items, root: Id, newId: Id, to: Id, afterId: Option<Id>,
                             outcome: Outcome)
  {
    var s := Children(before, root, to);
    var c := GapAfter(Ids(s), afterId);
    if Tie(s, c) then outcome.Threw? && after == before
    else
      && outcome.Done?
      && (newId in before ==> Writes(before, after, root, newId, to, s, c))
      && (newId !in before ==>
            if newId == root && to != ROOT_PARENT_SENTINEL then after == before
            else newId in after && Fits(s, c, after[newId].rank) && after == Inserted(before, newId, to, after[newId].rank))
  }

  // ---------- what each command promises ----------

  ghost predicate CanInsert(items: Items, root: Id, newId: Id, parentId: Id) {
    Clean(items, root) && Unreferenced(items, newId) && CanHost(items, root, newId, parentId)
  }

  ghost predicate Indented(before: Items, after: Items, root: Id, id: Id, outcome: Outcome)
    requires id in before
  {
    var siblings := ChildIds(before, root, before[id].parentId);
    var k := IndexIn(siblings, id);
    && k >= 0
    && (outcome.NoOp? <==> k == 0)
    && (k > 0 ==>
          outcome.Done?
          && MovedInto(before, after, root, id, siblings[k - 1], |ChildIds(before, root, siblings[k - 1])|))
  }

  ghost predicate Outdented(before: Items, after: Items, root: Id, id: Id, outcome: Outcome)
    requires id in before
  {
    var parentId := before[id].parentId;
    && parentId in before
    && (outcome.NoOp? <==> parentId == root)
    && (parentId != root ==>
          var grandparentId := before[parentId].parentId;
          var k := IndexIn(ChildIds(before, root, grandparentId), parentId);
          && k >= 0 && !outcome.TypeError?
          && (outcome.Threw? <==> Tie(Children(before, root, grandparentId), k + 1))
          && (outcome.Done? ==> MovedInto(before, after, root, id, grandparentId, k + 1)))
  }

  ghost predicate Swapped(before: Items, after: Items, root: Id, id: Id, up: bool, outcome: Outcome)
    requires id in before
  {
    var parentId := before[id].parentId;
    var s := Children(before, root, parentId);
    var k := IndexIn(Ids(s), id);
    && k >= 0
    && (outcome.NoOp? <==> if up then k == 0 else k == |s| - 1)
    && (outcome.Threw? <==> if up then k > 0 && Tie(s, k - 1) else Tie(s, k + 2))
    && (outcome.Done? ==> SwappedInto(before, after, root, id, parentId, k, up))
  }

  ghost predicate SwappedInto(before: Items, after: Items, root: Id, id: Id, parentId: Id, k: nat, up: bool) {
    var s := ChildIds(before, root, parentId);
    && k < |s| && (if up then k > 0 else k + 1 < |s|)
    && MovedInto(before, after, root, id, parentId, if up then k - 1 else k + 2)
    && var other := if up then k - 1 else k + 1;
       ChildIds(after, root, parentId) == s[k := s[other]][other := id]
  }

  ghost predicate Dropped(before: Items, after: Items, root: Id, id: Id, to: Id, afterId: Option<Id>, outcome: Outcome) {
    var c := GapAfter(ChildIds(before, root, to), afterId);
    && (outcome.NoOp? <==> Above(EdgesOf(before, root), id, to))
    && (!outcome.NoOp? ==> (outcome.Threw? <==> Tie(Children(before, root, to), c)))
    && (outcome.Done? ==> MovedInto(before, after, root, id, to, c))
  }

  lemma ReadyIsPlaced(items: Items, root: Id, id: Id)
    requires Ready(items, root, id)
    ensures id in items && id != root && Clean(items, root) && Live(items, root, id)
  {
  }

  lemma ReadyIsListed(items: Items, root: Id, id: Id)
    requires Ready(items, root, id)
    ensures IndexIn(ChildIds(items, root, items[id].parentId), id) >= 0
    ensures CanHost(items, root, id, items[id].parentId)
  {
    LiveParent(items, root, id);
    ListedAsKid(items, root, items[id].parentId, id);
    ParentsCanHost(items, root, id);
  }

  /** Indent: last child of the previous sibling, or nothing when there is none. */
  lemma IndentMeets(before: Items, after: Items, root: Id, id: Id, outcome: Outcome)
    requires Ready(before, root, id) && IndentStep(before, after, root, id, outcome)
    ensures Indented(before, after, root, id, outcome)
  {
    hide EdgesOf, Kids, Live, Clean, Children, MovedInto, CanHost, IndexIn, Ids, Ready;
    ReadyIsPlaced(before, root, id);
    ReadyIsListed(before, root, id);
    var siblings := ChildIds(before, root, before[id].parentId);
    var k := IndexIn(siblings, id);
    if k > 0 {
      PreviousCanHost(before, root, id, k);
      MoveLands(before, root, id, siblings[k - 1], after[id].rank, |ChildIds(before, root, siblings[k - 1])|);
    }
  }

  lemma PreviousCanHost(items: Items, root: Id, id: Id, k: nat)
    requires Ready(items, root, id)
    requires var s := ChildIds(items, root, items[id].parentId); 0 < k < |s| && s[k] == id
    ensures CanHost(items, root, id, ChildIds(items, root, items[id].parentId)[k - 1])
  {
    var parentId := items[id].parentId;
    var prevId := ChildIds(items, root, parentId)[k - 1];
    ListedOnce(items, root, parentId, k - 1, k);
    ListedAsKid(items, root, parentId, prevId);
    LiveParent(items, root, prevId);
    SiblingCanHost(items, root, id, prevId);
  }

  lemma OutdentGround(items: Items, root: Id, id: Id)
    requires Ready(items, root, id)
    ensures var p := items[id].parentId;
      && p in items
      && (p == root <==> items[p].parentId == ROOT_PARENT_SENTINEL)
      && (p != root ==>
            CanHost(items, root, id, items[p].parentId)
            && IndexIn(ChildIds(items, root, items[p].parentId), p) >= 0)
  {
    LiveParent(items, root, id);
    ParentsCanHost(items, root, id);
    var p := items[id].parentId;
    if p != root {
      CleanMeansRaw(items, root);
      LiveParent(items, root, p);
      ListedAsKid(items, root, items[p].parentId, p);
    }
  }

  /** Outdent: right after the parent; nothing at top level; an exception exactly on a rank tie. */
  lemma OutdentMeets(before: Items, after: Items, root: Id, id: Id, outcome: Outcome)
    requires Ready(before, root, id) && OutdentStep(before, after, root, id, outcome)
    ensures Outdented(before, after, root, id, outcome)
  {
    hide EdgesOf, Kids, Live, Clean, Children, MovedInto, CanHost, IndexIn, Ids, Ready;
    ReadyIsPlaced(before, root, id);
    OutdentGround(before, root, id);
    if outcome.Done? {
      var parentId := before[id].parentId;
      var grandparentId := before[parentId].parentId;
      var k := IndexIn(ChildIds(before, root, grandparentId), parentId);
      MoveLands(before, root, id, grandparentId, after[id].rank, k + 1);
    }
  }

  /** Outdent fails with a type error exactly when the parent is recovered or not shown; ties play no part. */
  lemma OutdentFails(before: Items, after: Items, root: Id, id: Id, outcome: Outcome)
    requires OutdentStep(before, after, root, id, outcome)
    ensures outcome.TypeError? <==>
      && id in before && before[id].parentId in before
      && before[before[id].parentId].parentId != ROOT_PARENT_SENTINEL
      && !ShownInPlace(before, root, before[id].parentId)
    ensures outcome.TypeError? ==> after == before
  {
    hide EdgesOf, Children, IndexIn, Live;
    if id in before && before[id].parentId in before {
      var p := before[id].parentId;
      ListedAsKid(before, root, before[p].parentId, p);
    }
  }

  /** Live, and in the outline where its placement says. */
  ghost predicate ShownInPlace(items: Items, root: Id, id: Id) {
    Live(items, root, id) && EdgesOf(items, root)[id] == items[id].parentId
  }

  // An item whose parent was moved under an item that is gone.
  ghost function LostParent(): Items {
    map[Id(1) := Item(ROOT_PARENT_SENTINEL, 0.0, false, "", false),
        Id(2) := Item(Id(9), 0.0, false, "", false),
        Id(3) := Item(Id(2), 0.0, false, "", false)]
  }

  lemma LostParentShows()
    ensures Live(LostParent(), Id(1), Id(3)) && !ShownInPlace(LostParent(), Id(1), Id(2))
  {
    var raw := RawOf(LostParent());
    assert Orphan(raw, Id(1), Id(2));
    assert Attached(raw, Id(1))[Id(2)] == Id(1);
    assert EdgesOf(LostParent(), Id(1))[Id(2)] == Id(1);
    assert Tombstones(raw, Id(1)) == {};
  }

  /** The item is shown under its recovered parent, no ranks tie, and outdenting it fails. */
  lemma OutdentCanFail(after: Items, outcome: Outcome)
    requires OutdentStep(LostParent(), after, Id(1), Id(3), outcome)
    ensures Live(LostParent(), Id(1), Id(3)) && Children(LostParent(), Id(1), Id(9)) == []
    ensures outcome == TypeError && after == LostParent()
  {
    hide Live, Children, EdgesOf, IndexIn, OutdentStep;
    LostParentShows();
    OutdentFails(LostParent(), after, Id(1), Id(3), outcome);
    NoChildrenOfNobody(LostParent(), Id(1), Id(9));
  }

  lemma NoChildrenOfNobody(items: Items, root: Id, p: Id)
    requires p !in items && p != root
    ensures Children(items, root, p) == []
  {
    if Children(items, root, p) != [] {
      var x := ChildIds(items, root, p)[0];
      ListedAsKid(items, root, p, x);
      EffectiveTreeIsRooted(RawOf(items), root);
      assert false;
    }
  }

  /** Move up or down: the two neighbours swap; an exception exactly on a rank tie behind them. */
  lemma SwapMeets(before: Items, after: Items, root: Id, id: Id, up: bool, outcome: Outcome)
    requires Ready(before, root, id) && SwapStep(before, after, root, id, up, outcome)
    ensures Swapped(before, after, root, id, up, outcome)
  {
    hide EdgesOf, Kids, Live, Clean, Children, MovedInto, SwappedInto, CanHost, IndexIn, Ids, Ready;
    ReadyIsPlaced(before, root, id);
    ReadyIsListed(before, root, id);
    if outcome.Done? {
      var k := IndexIn(ChildIds(before, root, before[id].parentId), id);
      SwapMoves(before, after, root, id, k, up);
      SwapLands(before, after, root, id, before[id].parentId, k, up);
    }
  }

  lemma SwapMoves(before: Items, after: Items, root: Id, id: Id, k: nat, up: bool)
    requires Ready(before, root, id) && SwapStep(before, after, root, id, up, Done)
    requires CanHost(before, root, id, before[id].parentId)
    requires k == IndexIn(ChildIds(before, root, before[id].parentId), id)
    ensures MovedInto(before, after, root, id, before[id].parentId, if up then k - 1 else k + 2)
  {
    hide EdgesOf, Kids, Live, Clean, Children, MovedInto, CanHost, IndexIn, Ids, Ready;
    ReadyIsPlaced(before, root, id);
    var parentId := before[id].parentId;
    if up {
      MoveLands(before, root, id, parentId, after[id].rank, k - 1);
    } else {
      MoveLands(before, root, id, parentId, after[id].rank, k + 2);
    }
  }

  lemma SwapLands(before: Items, after: Items, root: Id, id: Id, p: Id, k: nat, up: bool)
    requires var s := ChildIds(before, root, p); k < |s| && s[k] == id && if up then k > 0 else k + 1 < |s|
    requires MovedInto(before, after, root, id, p, if up then k - 1 else k + 2)
    ensures SwappedInto(before, after, root, id, p, k, up)
  {
    ListsAllDifferent(before, root, p);
    if up {
      GapSwapsUp(ChildIds(before, root, p), k);
    } else {
      GapSwapsDown(ChildIds(before, root, p), k);
    }
  }

  lemma ListsAllDifferent(items: Items, root: Id, p: Id)
    ensures AllDifferent(ChildIds(items, root, p))
  {
    var s := ChildIds(items, root, p);
    forall i, j | 0 <= i < j < |s|
      ensures s[i] != s[j]
    {
      ListedOnce(items, root, p, i, j);
    }
  }

  lemma DropGround(items: Items, root: Id, id: Id, to: Id)
    requires Ready(items, root, id) && (Live(items, root, to) || to == root)
    ensures Above(RawParentOf(items), id, to) <==> Above(EdgesOf(items, root), id, to)
    ensures !Above(EdgesOf(items, root), id, to) ==> CanHost(items, root, id, to)
  {
    RawWalkAgrees(items, root, id, to);
    AboveStepSelf(EdgesOf(items, root), id);
  }

  /** Drag: refused exactly into the own subtree; otherwise right after `afterId`, or first. */
  lemma DropMeets(before: Items, after: Items, root: Id, id: Id, to: Id, afterId: Option<Id>, outcome: Outcome)
    requires Ready(before, root, id) && (Live(before, root, to) || to == root)
    requires DropStep(before, after, root, id, to, afterId, outcome)
    ensures Dropped(before, after, root, id, to, afterId, outcome)
  {
    hide EdgesOf, Kids, Live, Clean, Children, MovedInto, CanHost, IndexIn, Ids, Ready;
    ReadyIsPlaced(before, root, id);
    DropGround(before, root, id, to);
    if outcome.Done? {
      MoveLands(before, root, id, to, after[id].rank, GapAfter(ChildIds(before, root, to), afterId));
    }
  }

  /** Insert: the new item is shown right after `afterId`, or first. */
  lemma InsertMeets(before: Items, after: Items, root: Id, newId: Id, to: Id, afterId: Option<Id>, outcome: Outcome)
    requires CanInsert(before, root, newId, to)
    requires InsertStep(before, after, root, newId, to, afterId, outcome)
    ensures outcome.Done? ==>
      InsertedInto(before, after, root, newId, to, GapAfter(ChildIds(before, root, to), afterId))
  {
    if outcome.Done? {
      InsertLands(before, root, newId, to, after[newId].rank, GapAfter(ChildIds(before, root, to), afterId));
    }
  }

  /** The text of `id` and of the new item together. */
  ghost function TextOfBoth(items: Items, id: Id, newId: Id): string
    requires id in items
  {
    items[id].content + if newId in items then items[newId].content else ""
  }

  /** Where the new item of a split goes: the gap behind `id`. */
  ghost function SplitGap(items: Items, root: Id, id: Id): nat
    requires id in items
  {
    IndexIn(ChildIds(items, root, items[id].parentId), id) + 1
  }

  ghost predicate SplitTie(items: Items, root: Id, id: Id)
    requires id in items
  {
    Tie(Children(items, root, items[id].parentId), SplitGap(items, root, id))
  }

  /**
   Split: the text after the caret becomes the next sibling. On a rank tie behind
   the item the insert throws after the truncation was written, so the text after
   the caret is gone.
   */
  lemma SplitMeets(before: Items, after: Items, root: Id, id: Id, offset: int, newId: Id, outcome: Outcome)
    requires Ready(before, root, id) && Unreferenced(before, newId) && newId != root
    requires SplitStep(before, after, root, id, offset, newId, outcome)
    ensures outcome == if SplitTie(before, root, id) then Threw else Done
    ensures var at := Clamp(offset, |before[id].content|);
      if outcome.Threw? then after == WithText(before, id, before[id].content[..at])
      else SplitInto(before, after, root, id, newId, SplitGap(before, root, id), at)
  {
    hide EdgesOf, Kids, Live, Clean, Children, SplitInto, CanInsert, Ready, InsertedInto, ChildIds, IndexIn, SameOutline,
      Unreferenced, InsertStep;
    ReadyIsPlaced(before, root, id);
    var parentId := before[id].parentId;
    var full := before[id].content;
    var at := Clamp(offset, |full|);
    var cut := WithText(before, id, full[..at]);
    SplitGround(before, cut, root, id, newId, full[..at]);
    var placed: Items :|
      && InsertStep(cut, placed, root, newId, parentId, Some(id), outcome)
      && after == Filled(placed, newId, full[at..], outcome);
    InsertTies(cut, placed, root, newId, parentId, id, outcome);
    if outcome.Done? {
      InsertMeets(cut, placed, root, newId, parentId, Some(id), outcome);
      SplitLands(before, cut, placed, root, id, newId, at);
    }
  }

  lemma InsertTies(cut: Items, placed: Items, root: Id, newId: Id, p: Id, id: Id, outcome: Outcome)
    requires InsertStep(cut, placed, root, newId, p, Some(id), outcome)
    ensures outcome == if Tie(Children(cut, root, p), IndexIn(ChildIds(cut, root, p), id) + 1) then Threw else Done
    ensures outcome.Threw? ==> placed == cut
  {
    hide Children, IndexIn, Ids, Writes, Inserted;
    var s := Children(cut, root, p);
    assert Ids(s) == ChildIds(cut, root, p);
  }

  lemma SplitGround(before: Items, cut: Items, root: Id, id: Id, newId: Id, head: string)
    requires Ready(before, root, id) && Unreferenced(before, newId) && newId != root
    requires cut == WithText(before, id, head)
    ensures CanInsert(cut, root, newId, before[id].parentId)
    ensures SameOutline(before, cut, root)
    ensures forall p :: ChildIds(cut, root, p) == ChildIds(before, root, p)
    ensures id in before && id != newId && newId !in cut
  {
    OutlineIgnoresText(before, cut, root);
    LiveParent(before, root, id);
  }

  /** The new item stands right below, the text is divided at `at`, and nothing else changed. */
  ghost predicate SplitInto(before: Items, after: Items, root: Id, id: Id, newId: Id, c: nat, at: nat)
    requires id in before && at <= |before[id].content|
  {
    && Clean(after, root)
    && (forall z :: Live(after, root, z) <==> Live(before, root, z) || z == newId)
    && Relisted(before, after, root, newId, before[id].parentId, c)
    && Divided(before, after, id, newId, at)
  }

  ghost predicate Divided(before: Items, after: Items, id: Id, newId: Id, at: nat)
    requires id in before && at <= |before[id].content|
  {
    && after.Keys == before.Keys + {newId} && newId != id
    && after[id] == before[id].(content := before[id].content[..at])
    && after[newId].content == before[id].content[at..]
    && forall z :: z in before && z != id && z != newId ==> after[z] == before[z]
  }

  lemma SplitLands(before: Items, cut: Items, placed: Items, root: Id, id: Id, newId: Id, at: nat)
    requires id in before && newId !in before && at <= |before[id].content|
    requires cut == WithText(before, id, before[id].content[..at]) && SameOutline(before, cut, root)
    requires InsertedInto(cut, placed, root, newId, before[id].parentId, SplitGap(before, root, id))
    ensures var done := Filled(placed, newId, before[id].content[at..], Done);
      SplitInto(before, done, root, id, newId, SplitGap(before, root, id), at)
  {
    var done := Filled(placed, newId, before[id].content[at..], Done);
    FilledLooksTheSame(placed, newId, before[id].content[at..], root);
    hide Clean, Live, Children, EdgesOf, Divided, Filled, WithText, SameOutline, ChildIds, Relisted;
    TextDivided(before, cut, placed, root, id, newId, at);
    SplitShows(before, cut, placed, done, root, newId, before[id].parentId, SplitGap(before, root, id));
  }

  lemma FilledLooksTheSame(placed: Items, newId: Id, rest: string, root: Id)
    ensures SameOutline(placed, Filled(placed, newId, rest, Done), root)
  {
    OutlineIgnoresText(placed, Filled(placed, newId, rest, Done), root);
  }

  /** What the insert shows is what the split shows: text plays no part. */
  lemma SplitShows(before: Items, cut: Items, placed: Items, done: Items, root: Id, newId: Id, p: Id, c: nat)
    requires SameOutline(before, cut, root) && SameOutline(placed, done, root)
    requires InsertedInto(cut, placed, root, newId, p, c)
    ensures Clean(done, root) && Relisted(before, done, root, newId, p, c)
    ensures forall z :: Live(done, root, z) <==> Live(before, root, z) || z == newId
  {
    hide Clean, Live, Children, EdgesOf, IntoGap, Without;
    SameLists(before, cut, root, p);
    SameLists(placed, done, root, p);
    forall q | q != p
      ensures ChildIds(done, root, q) == Without(ChildIds(before, root, q), newId)
    {
      SameLists(before, cut, root, q);
      SameLists(placed, done, root, q);
    }
  }

  lemma SameLists(a: Items, b: Items, root: Id, p: Id)
    requires SameOutline(a, b, root)
    ensures ChildIds(a, root, p) == ChildIds(b, root, p)
  {
  }

  lemma TextDivided(before: Items, cut: Items, placed: Items, root: Id, id: Id, newId: Id, at: nat)
    requires id in before && newId !in before && at <= |before[id].content|
    requires cut == WithText(before, id, before[id].content[..at])
    requires newId in placed && placed == cut[newId := Item(before[id].parentId, placed[newId].rank, false, "", false)]
    ensures newId in placed && Divided(before, Filled(placed, newId, before[id].content[at..], Done), id, newId, at)
  {
    assert before[id].content[at..] + "" == before[id].content[at..];
  }

  /**
   The texts of both items together survive a split exactly when no rank tie
   stands behind the item or nothing stood behind the caret. Nothing is asked of
   the rest of the document.
   */
  lemma SplitKeepsText(before: Items, after: Items, root: Id, id: Id, offset: int, newId: Id, outcome: Outcome)
    requires id in before && newId !in before && newId != root
    requires SplitStep(before, after, root, id, offset, newId, outcome)
    ensures id in after
    ensures TextOfBoth(after, id, newId) == before[id].content
       <==> !SplitTie(before, root, id) || Clamp(offset, |before[id].content|) == |before[id].content|
  {
    hide Children, IndexIn, Ids, InsertStep, WithText, Filled, Divided, TextOfBoth;
    var full := before[id].content;
    var at := Clamp(offset, |full|);
    var cut := WithText(before, id, full[..at]);
    var placed: Items :|
      && InsertStep(cut, placed, root, newId, before[id].parentId, Some(id), outcome)
      && after == Filled(placed, newId, full[at..], outcome);
    SplitTiesAlike(before, cut, root, id, full[..at]);
    InsertTies(cut, placed, root, newId, before[id].parentId, id, outcome);
    if outcome.Threw? {
      NothingFilled(placed, newId, full[at..]);
      TextCut(before, after, id, newId, at);
    } else {
      InsertsFresh(before, cut, placed, root, id, newId, full[..at], outcome);
      TextDivided(before, cut, placed, root, id, newId, at);
      TextKept(before, after, id, newId, at);
    }
  }

  lemma SplitTiesAlike(before: Items, cut: Items, root: Id, id: Id, head: string)
    requires id in before && cut == WithText(before, id, head)
    ensures SplitTie(before, root, id)
       <==> Tie(Children(cut, root, before[id].parentId), IndexIn(ChildIds(cut, root, before[id].parentId), id) + 1)
  {
    hide Children, IndexIn, Ids, Live, Clean, EdgesOf, Tie;
    OutlineIgnoresText(before, cut, root);
    assert Children(before, root, before[id].parentId) == Children(cut, root, before[id].parentId);
  }

  lemma NothingFilled(placed: Items, newId: Id, rest: string)
    ensures Filled(placed, newId, rest, Threw) == placed
  {
  }

  lemma InsertsFresh(before: Items, cut: Items, placed: Items, root: Id, id: Id, newId: Id, head: string, outcome: Outcome)
    requires id in before && newId !in before && newId != root && cut == WithText(before, id, head)
    requires InsertStep(cut, placed, root, newId, before[id].parentId, Some(id), outcome) && outcome.Done?
    ensures newId in placed && placed == cut[newId := Item(before[id].parentId, placed[newId].rank, false, "", false)]
  {
    hide Children, IndexIn, Ids;
  }

  lemma TextCut(before: Items, after: Items, id: Id, newId: Id, at: nat)
    requires id in before && newId !in before && at <= |before[id].content|
    requires after == WithText(before, id, before[id].content[..at])
    ensures id in after && (TextOfBoth(after, id, newId) == before[id].content <==> at == |before[id].content|)
  {
    var full := before[id].content;
    assert full[..at] + "" == full[..at];
    assert at == |full| ==> full[..at] == full;
  }

  lemma TextKept(before: Items, after: Items, id: Id, newId: Id, at: nat)
    requires id in before && at <= |before[id].content| && Divided(before, after, id, newId, at)
    ensures id in after && TextOfBoth(after, id, newId) == before[id].content
  {
    var full := before[id].content;
    assert full == full[..at] + full[at..];
  }

  // Two siblings whose ranks tie; the first one's text is about to be split.
  ghost function TiedPair(): Items {
    map[Id(1) := Item(ROOT_PARENT_SENTINEL, 0.0, false, "", false),
        Id(2) := Item(Id(1), 0.0, false, "ab", false),
        Id(3) := Item(Id(1), 0.0, false, "", false)]
  }

  lemma TiedPairIsClean()
    ensures Clean(TiedPair(), Id(1)) && EdgesOf(TiedPair(), Id(1)) == map[Id(2) := Id(1), Id(3) := Id(1)]
    ensures Tombstones(RawOf(TiedPair()), Id(1)) == {}
  {
    var g := RawEdges(RawOf(TiedPair()), Id(1));
    assert g == map[Id(2) := Id(1), Id(3) := Id(1)];
    forall id | id in g
      ensures Grounded(g, id)
    {
      assert Up(g, id, 0) == id;
      assert Up(g, id, 1) == Id(1);
    }
    TreeMeansClean(TiedPair(), Id(1));
  }

  lemma TiedPairShows(id: Id)
    ensures Live(TiedPair(), Id(1), id) <==> id == Id(2) || id == Id(3)
  {
    TiedPairIsClean();
    hide EdgesOf, Clean;
    LiveMeansNotHidden(TiedPair(), Id(1), id);
  }

  lemma TiedPairLists()
    ensures Children(TiedPair(), Id(1), Id(1)) == [Sibling(Id(2), 0.0), Sibling(Id(3), 0.0)]
  {
    var s := [Sibling(Id(2), 0.0), Sibling(Id(3), 0.0)];
    TiedPairIsClean();
    hide EdgesOf, Kids, Live, Clean;
    forall e
      ensures e in Kids(TiedPair(), Id(1), Id(1)) <==> e in Members(s)
    {
      KidsMembers(TiedPair(), Id(1), Id(1), e);
      TiedPairShows(e.id);
      assert s[0] in s && s[1] in s;
    }
    SetEquality(Kids(TiedPair(), Id(1), Id(1)), Members(s));
    InOrderOf(s);
  }

  lemma TiedPairTies()
    ensures SplitTie(TiedPair(), Id(1), Id(2))
  {
    TiedPairLists();
    hide EdgesOf, Kids, Live, Clean, Children;
    assert TiedPair()[Id(2)].parentId == Id(1);
    hide TiedPair;
    TieInFront(Children(TiedPair(), Id(1), Id(1)));
  }

  lemma TieInFront(s: seq<Sibling>)
    requires |s| == 2 && s[0].rank == s[1].rank
    ensures Tie(s, IndexIn(Ids(s), s[0].id) + 1)
  {
  }

  lemma TiedPairIsReady()
    ensures Ready(TiedPair(), Id(1), Id(2)) && Unreferenced(TiedPair(), Id(4))
    ensures SplitTie(TiedPair(), Id(1), Id(2))
  {
    hide EdgesOf, Kids, Live, Clean, Children, SplitTie;
    TiedPairIsClean();
    TiedPairShows(Id(2));
    TiedPairTies();
  }

  /** Splitting "ab" behind the first letter while the ranks tie leaves "a" and nothing else. */
  lemma SplitCanLoseText(after: Items, outcome: Outcome)
    requires SplitStep(TiedPair(), after, Id(1), Id(2), 1, Id(4), outcome)
    ensures outcome == Threw && after == WithText(TiedPair(), Id(2), "a") && Id(4) !in after
  {
    hide SplitStep, Ready, Unreferenced, SplitTie;
    TiedPairIsReady();
    SplitMeets(TiedPair(), after, Id(1), Id(2), 1, Id(4), outcome);
    assert "ab"[..1] == "a";
  }

  /** The gap right after `afterId`, or the first gap when it is absent or not listed. */
  function GapAfter(s: seq<Id>, afterId: Option<Id>): (c: nat)
    ensures c <= |s|
  {
    if afterId.Some? then IndexIn(s, afterId.value) + 1 else 0
  }

  /** Raw parent of every item, the root included. */
  ghost function RawParentOf(items: Items): map<Id, Id> {
    map id | id in items :: items[id].parentId
  }

  /** The first `n` steps of the walk do not meet `a`. */
  ghost predicate Missed(g: map<Id, Id>, start: Id, a: Id, n: nat) {
    forall j: nat :: j <= n ==> Up(g, start, j) != a
  }

  ghost predicate SeenOnWalk(g: map<Id, Id>, start: Id, seen: set<Id>, n: nat) {
    forall x :: x in seen ==> exists j: nat :: j < n && Up(g, start, j) == x
  }

  lemma SeenStep(g: map<Id, Id>, start: Id, seen: set<Id>, n: nat)
    requires SeenOnWalk(g, start, seen, n)
    ensures SeenOnWalk(g, start, seen + {Up(g, start, n)}, n + 1)
  {
    forall x | x in seen + {Up(g, start, n)}
      ensures exists j: nat :: j < n + 1 && Up(g, start, j) == x
    {
      if x in seen {
        var j: nat :| j < n && Up(g, start, j) == x;
        assert j < n + 1;
      }
    }
  }

  lemma WalkEnds(g: map<Id, Id>, start: Id, n: nat, a: Id)
    requires Up(g, start, n) !in g && Missed(g, start, a, n)
    ensures !Above(g, a, start)
  {
    forall k: nat
      ensures Up(g, start, k) != a
    {
      if k > n {
        UpTerminal(g, start, n, k);
      }
    }
  }

  /** A walk that repeats a node meets nothing new. */
  lemma WalkRepeats(g: map<Id, Id>, start: Id, n: nat, a: Id)
    requires exists j: nat :: j < n && Up(g, start, j) == Up(g, start, n)
    requires Missed(g, start, a, n)
    ensures !Above(g, a, start)
  {
    var i: nat :| i < n && Up(g, start, i) == Up(g, start, n);
    forall k: nat
      ensures Up(g, start, k) != a
    {
      RepeatCovers(g, start, i, n, k);
    }
  }

  lemma {:induction false} RepeatCovers(g: map<Id, Id>, start: Id, i: nat, n: nat, k: nat)
    requires i < n && Up(g, start, i) == Up(g, start, n)
    ensures exists j: nat :: j <= n && Up(g, start, j) == Up(g, start, k)
  {
    if k > n {
      UpAdd(g, start, n, k - n);
      UpAdd(g, start, i, k - n);
      RepeatCovers(g, start, i, n, k - (n - i));
    }
  }

  /** Without faults the raw walk and the effective walk meet the same items. */
  lemma RawWalkAgrees(items: Items, root: Id, a: Id, id: Id)
    requires Clean(items, root) && a in items && a != root && ROOT_PARENT_SENTINEL !in items
    requires root in items && items[root].parentId == ROOT_PARENT_SENTINEL
    ensures Above(RawParentOf(items), a, id) <==> Above(EdgesOf(items, root), a, id)
  {
    var g, h := EdgesOf(items, root), RawParentOf(items);
    CleanMeansRaw(items, root);
    forall k: nat
      ensures Up(h, id, k) == Up(g, id, k) || (Up(g, id, k) == root && Up(h, id, k) == ROOT_PARENT_SENTINEL)
    {
      RawWalkSteps(items, root, id, k);
    }
  }

  lemma {:induction false} RawWalkSteps(items: Items, root: Id, id: Id, k: nat)
    requires Clean(items, root) && ROOT_PARENT_SENTINEL !in items
    requires root in items && items[root].parentId == ROOT_PARENT_SENTINEL
    ensures var g, h := EdgesOf(items, root), RawParentOf(items);
      Up(h, id, k) == Up(g, id, k) || (Up(g, id, k) == root && Up(h, id, k) == ROOT_PARENT_SENTINEL)
  {
    if k > 0 {
      RawWalkSteps(items, root, id, k - 1);
      CleanMeansRaw(items, root);
    }
  }
}
