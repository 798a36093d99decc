/**
 Local undo and redo of structural actions. An action records, for every item it
 changed, the item before and after; undoing writes the earlier values of exactly
 the changed registers back, as new writes.
 */
module History {
  import opened Collections
  import opened TreeTheory
  import opened Siblings
  import opened EffectiveTree
  import opened OutlineModel

  // A missing side means that the item did not exist on that side; `moved` says that
  // the placement register was written, if only with the same place and a new stamp.
  datatype Change = Change(before: Option<Item>, after: Option<Item>, moved: bool)

  // The items whose placement or deleted register got a new stamp.
  datatype Stamped = Stamped(moved: set<Id>, marked: set<Id>)

  type Action = map<Id, Change>

  datatype Side = Before | After

  function StateOn(c: Change, side: Side): Option<Item> {
    if side.Before? then c.before else c.after
  }

  /** The changes of a transaction that took the document from `a` to `b`. */
  function Diff(a: Items, b: Items, stamped: Stamped): Action {
    map id | id in b && (id !in a || a[id] != b[id] || id in stamped.moved || id in stamped.marked) ::
      Change(if id in a then Some(a[id]) else None, Some(b[id]), id in stamped.moved)
  }

  predicate SamePlace(a: Item, b: Item) {
    a.parentId == b.parentId && a.rank == b.rank
  }

  /** The registers that history restores. */
  predicate SameFields(a: Item, b: Item) {
    SamePlace(a, b) && a.isDeleted == b.isDeleted && a.isCompleted == b.isCompleted
  }

  // ---------- applying one side of an action ----------

  predicate PlaceChanged(c: Change) {
    c.before.None? || c.after.None? || c.moved || !SamePlace(c.before.value, c.after.value)
  }

  predicate DeletedChanged(c: Change) {
    c.before.None? || c.after.None? || c.before.value.isDeleted != c.after.value.isDeleted
  }

  predicate CompletedChanged(c: Change) {
    (c.before.None? != c.after.None?)
    || (c.before.Some? && c.after.Some? && c.before.value.isCompleted != c.after.value.isCompleted)
  }

  /** The item after the writes for one change; the root keeps its place and is never deleted. */
  function Written(item: Item, c: Change, side: Side, isRoot: bool): Item {
    match StateOn(c, side)
    case None => if isRoot then item else item.(isDeleted := true)
    case Some(state) =>
      var placed := if PlaceChanged(c) && !(isRoot && state.parentId != ROOT_PARENT_SENTINEL)
                    then item.(parentId := state.parentId, rank := state.rank) else item;
      var marked := if DeletedChanged(c) && !isRoot then placed.(isDeleted := state.isDeleted) else placed;
      if CompletedChanged(c) then marked.(isCompleted := state.isCompleted) else marked
  }

  function Applied(doc: Items, root: Id, action: Action, side: Side): (r: Items)
    ensures r.Keys == doc.Keys
  {
    map id | id in doc :: if id in action then Written(doc[id], action[id], side, id == root) else doc[id]
  }

  /**
   From `was` to `now`, each register in which `a` and `b` differ, and the placement if
   it was written again, takes the value of `a`; every other one is left alone.
   */
  ghost predicate TakesBack(was: Item, now: Item, a: Item, b: Item, moved: bool) {
    && (if a.parentId != b.parentId || a.rank != b.rank || moved
        then now.parentId == a.parentId && now.rank == a.rank
        else now.parentId == was.parentId && now.rank == was.rank)
    && now.isDeleted == (if a.isDeleted != b.isDeleted then a.isDeleted else was.isDeleted)
    && now.isCompleted == (if a.isCompleted != b.isCompleted then a.isCompleted else was.isCompleted)
    && now.content == was.content
  }

  /** Whatever others have written since: what the action changed goes back to the recorded values, or forward to them. */
  lemma RegistersWritten(doc: Items, root: Id, a: Items, b: Items, stamped: Stamped, id: Id)
    requires id in doc && id in a && id in b && id != root
    ensures TakesBack(doc[id], Undone(doc, root, Step(a, b, stamped))[id], a[id], b[id], id in stamped.moved)
    ensures TakesBack(doc[id], Redone(doc, root, Step(a, b, stamped))[id], b[id], a[id], id in stamped.moved)
  {
    var action := Diff(a, b, stamped);
    AppliedAt(doc, root, action, Before, id);
    AppliedAt(doc, root, action, After, id);
    ChangeIsTaken(doc[id], a[id], b[id], id in stamped.moved);
    hide Applied, Written, TakesBack;
    if id !in action {
      NothingTaken(doc[id], a[id]);
    }
  }

  lemma ChangeIsTaken(item: Item, a: Item, b: Item, moved: bool)
    ensures TakesBack(item, Written(item, Change(Some(a), Some(b), moved), Before, false), a, b, moved)
    ensures TakesBack(item, Written(item, Change(Some(a), Some(b), moved), After, false), b, a, moved)
  {
  }

  lemma NothingTaken(item: Item, a: Item)
    ensures TakesBack(item, item, a, a, false)
  {
  }

  /** Undoing a creation tombstones the item; redoing it brings its registers and leaves its text. */
  lemma CreationWritten(doc: Items, root: Id, a: Items, b: Items, stamped: Stamped, id: Id)
    requires id in doc && id !in a && id in b && id != root
    ensures Undone(doc, root, Step(a, b, stamped))[id]
      == Item(doc[id].parentId, doc[id].rank, true, doc[id].content, doc[id].isCompleted)
    ensures Redone(doc, root, Step(a, b, stamped))[id]
      == Item(b[id].parentId, b[id].rank, b[id].isDeleted, doc[id].content, b[id].isCompleted)
  {
  }

  /** The root is never deleted or revived, and takes only a place that is a root's. */
  lemma RootWritten(doc: Items, root: Id, a: Items, b: Items, stamped: Stamped)
    requires root in doc && root in a && root in b
    ensures var undone, redone := Undone(doc, root, Step(a, b, stamped))[root], Redone(doc, root, Step(a, b, stamped))[root];
      var placed := a[root].parentId != b[root].parentId || a[root].rank != b[root].rank || root in stamped.moved;
      && (if placed && a[root].parentId == ROOT_PARENT_SENTINEL
          then undone.parentId == ROOT_PARENT_SENTINEL && undone.rank == a[root].rank
          else undone.parentId == doc[root].parentId && undone.rank == doc[root].rank)
      && (if placed && b[root].parentId == ROOT_PARENT_SENTINEL
          then redone.parentId == ROOT_PARENT_SENTINEL && redone.rank == b[root].rank
          else redone.parentId == doc[root].parentId && redone.rank == doc[root].rank)
      && undone.isDeleted == redone.isDeleted == doc[root].isDeleted
      && (if a[root].isCompleted != b[root].isCompleted
          then undone.isCompleted == a[root].isCompleted && redone.isCompleted == b[root].isCompleted
          else undone.isCompleted == redone.isCompleted == doc[root].isCompleted)
      && undone.content == redone.content == doc[root].content
  {
  }

  /** A register that the action did not change is left alone, whatever was written to it since. */
  lemma OnlyChangedRegisters(doc: Items, root: Id, a: Items, b: Items, stamped: Stamped, side: Side, id: Id)
    requires id in doc && id in a && id in b
    ensures var after := Applied(doc, root, Diff(a, b, stamped), side)[id];
      && (a[id].parentId == b[id].parentId && a[id].rank == b[id].rank && id !in stamped.moved ==>
            after.parentId == doc[id].parentId && after.rank == doc[id].rank)
      && (a[id].isDeleted == b[id].isDeleted ==> after.isDeleted == doc[id].isDeleted)
      && (a[id].isCompleted == b[id].isCompleted ==> after.isCompleted == doc[id].isCompleted)
      && after.content == doc[id].content
  {
  }

  /** Items the action did not touch stay as they are; what it created is tombstoned by undo, nothing else of it. */
  lemma UntouchedItems(doc: Items, root: Id, a: Items, b: Items, stamped: Stamped, side: Side, id: Id)
    requires id in doc
    ensures id !in b || (id in a && a[id] == b[id] && id !in stamped.moved) ==>
      Applied(doc, root, Diff(a, b, stamped), side)[id] == doc[id]
    ensures id in b && id !in a && id != root ==>
      Applied(doc, root, Diff(a, b, stamped), Before)[id] == doc[id].(isDeleted := true)
  {
  }

  // ---------- stacks ----------

  // A transaction of the local user, as the documents before and after it.
  datatype Step = Step(before: Items, after: Items, stamped: Stamped)

  /** What the writers can do: items are never removed and the root stays the root. */
  ghost predicate Legal(s: Step, root: Id) {
    && s.before.Keys <= s.after.Keys && root in s.before
    && s.before[root].parentId == s.after[root].parentId == ROOT_PARENT_SENTINEL
    && s.before[root].isDeleted == s.after[root].isDeleted
  }

  ghost function Undone(doc: Items, root: Id, s: Step): (r: Items)
    ensures r.Keys == doc.Keys
  {
    Applied(doc, root, Diff(s.before, s.after, s.stamped), Before)
  }

  ghost function Redone(doc: Items, root: Id, s: Step): (r: Items)
    ensures r.Keys == doc.Keys
  {
    Applied(doc, root, Diff(s.before, s.after, s.stamped), After)
  }

  /** `doc` holds everything of `d`, register by register. */
  ghost predicate Holds(doc: Items, d: Items) {
    forall id :: id in d ==> id in doc && SameFields(doc[id], d[id])
  }

  /** `doc` holds `d`, and beyond it only tombstones. */
  ghost predicate Restores(doc: Items, d: Items) {
    Holds(doc, d) && forall id :: id in doc && id !in d ==> doc[id].isDeleted
  }

  lemma RestoresTransitive(a: Items, b: Items, c: Items)
    requires Restores(a, b) && Restores(b, c)
    ensures Restores(a, c)
  {
  }

  /** Undoing gives back the document before, plus the tombstones of what was created. */
  lemma UndoRestores(s: Step, root: Id)
    requires Legal(s, root)
    ensures Restores(Undone(s.after, root, s), s.before)
  {
  }

  // What the writers can do to one item.
  ghost predicate LegalChange(c: Change, isRoot: bool) {
    && c.after.Some?
    && (isRoot ==>
          c.before.Some? && c.before.value.parentId == c.after.value.parentId == ROOT_PARENT_SENTINEL
          && c.before.value.isDeleted == c.after.value.isDeleted)
  }

  lemma RewrittenItem(item: Item, c: Change, isRoot: bool)
    requires LegalChange(c, isRoot) && SameFields(item, c.after.value)
    ensures SameFields(Written(Written(item, c, Before, isRoot), c, After, isRoot), item)
    ensures SameFields(Written(item, c, Before, isRoot), Written(c.after.value, c, Before, isRoot))
  {
  }

  lemma RevertedItem(item: Item, c: Change, isRoot: bool)
    requires LegalChange(c, isRoot) && SameFields(item, Written(c.after.value, c, Before, isRoot))
    ensures SameFields(Written(Written(item, c, After, isRoot), c, Before, isRoot), item)
    ensures SameFields(Written(item, c, After, isRoot), c.after.value)
  {
  }

  lemma ChangesAreLegal(s: Step, root: Id, id: Id)
    requires Legal(s, root) && id in Diff(s.before, s.after, s.stamped)
    ensures id in s.after && LegalChange(Diff(s.before, s.after, s.stamped)[id], id == root)
    ensures Diff(s.before, s.after, s.stamped)[id].after.value == s.after[id]
  {
  }

  lemma UnchangedItem(s: Step, root: Id, id: Id)
    requires Legal(s, root) && id in s.after && id !in Diff(s.before, s.after, s.stamped)
    ensures id in s.before && s.before[id] == s.after[id] && Undone(s.after, root, s)[id] == s.after[id]
  {
  }

  lemma AppliedAt(doc: Items, root: Id, action: Action, side: Side, id: Id)
    requires id in doc
    ensures Applied(doc, root, action, side)[id]
         == if id in action then Written(doc[id], action[id], side, id == root) else doc[id]
  {
  }

  lemma RedoUndoes(doc: Items, root: Id, s: Step)
    requires Legal(s, root) && Holds(doc, s.after)
    ensures Restores(Redone(Undone(doc, root, s), root, s), doc)
    ensures Holds(Undone(doc, root, s), Undone(s.after, root, s))
  {
    hide Diff, Applied, Written, SameFields;
    var action := Diff(s.before, s.after, s.stamped);
    forall id | id in doc
      ensures SameFields(Redone(Undone(doc, root, s), root, s)[id], doc[id])
      ensures id in s.after ==> SameFields(Undone(doc, root, s)[id], Undone(s.after, root, s)[id])
    {
      AppliedAt(doc, root, action, Before, id);
      AppliedAt(Undone(doc, root, s), root, action, After, id);
      if id in action {
        ChangesAreLegal(s, root, id);
        AppliedAt(s.after, root, action, Before, id);
        RewrittenItem(doc[id], action[id], id == root);
      } else {
        SameAsItself(doc[id]);
        if id in s.after {
          UnchangedItem(s, root, id);
        }
      }
    }
  }

  lemma SameAsItself(item: Item)
    ensures SameFields(item, item)
  {
  }

  lemma UndoUndoes(doc: Items, root: Id, s: Step)
    requires Legal(s, root) && Holds(doc, Undone(s.after, root, s))
    ensures Restores(Undone(Redone(doc, root, s), root, s), doc)
    ensures Holds(Redone(doc, root, s), s.after)
  {
    hide Diff, Applied, Written, SameFields;
    var action := Diff(s.before, s.after, s.stamped);
    forall id | id in doc
      ensures SameFields(Undone(Redone(doc, root, s), root, s)[id], doc[id])
      ensures id in s.after ==> SameFields(Redone(doc, root, s)[id], s.after[id])
    {
      AppliedAt(doc, root, action, After, id);
      AppliedAt(Redone(doc, root, s), root, action, Before, id);
      if id in action {
        ChangesAreLegal(s, root, id);
        AppliedAt(s.after, root, action, Before, id);
        RevertedItem(doc[id], action[id], id == root);
      } else {
        SameAsItself(doc[id]);
        if id in s.after {
          UnchangedItem(s, root, id);
        }
      }
    }
    assert forall id :: id in s.after ==> id in Undone(s.after, root, s);
  }

  lemma WrittenAlike(a: Item, b: Item, c: Change, side: Side, isRoot: bool)
    requires SameFields(a, b)
    ensures SameFields(Written(a, c, side, isRoot), Written(b, c, side, isRoot))
  {
  }

  /** The same writes on a document that restores another one. */
  lemma AppliedRestores(a: Items, b: Items, root: Id, s: Step, side: Side)
    requires Restores(a, b) && s.after.Keys <= b.Keys
    ensures Restores(Applied(a, root, Diff(s.before, s.after, s.stamped), side), Applied(b, root, Diff(s.before, s.after, s.stamped), side))
  {
    var action := Diff(s.before, s.after, s.stamped);
    assert action.Keys <= b.Keys;
    hide Diff, Applied, Written, SameFields;
    forall id | id in a
      ensures id in b ==> SameFields(Applied(a, root, action, side)[id], Applied(b, root, action, side)[id])
      ensures id !in b ==> Applied(a, root, action, side)[id].isDeleted
    {
      AppliedAt(a, root, action, side, id);
      if id in b {
        AppliedAt(b, root, action, side, id);
        if id in action {
          WrittenAlike(a[id], b[id], action[id], side, id == root);
        }
      }
    }
  }

  /** Every action on the undo stack, undone in turn, finds the values it left, down to the origin. */
  ghost predicate UndoReady(doc: Items, root: Id, undo: seq<Step>, origin: Items)
    decreases |undo|
  {
    if undo == [] then Restores(doc, origin)
    else
      var s := undo[|undo| - 1];
      && Legal(s, root) && Holds(doc, s.after)
      && UndoReady(Undone(doc, root, s), root, undo[..|undo| - 1], origin)
  }

  /** Every action on the redo stack, redone in turn, finds the document it was undone to. */
  ghost predicate RedoReady(doc: Items, root: Id, redo: seq<Step>)
    decreases |redo|
  {
    redo == [] ||
    var s := redo[|redo| - 1];
    && Legal(s, root) && Holds(doc, Undone(s.after, root, s))
    && RedoReady(Redone(doc, root, s), root, redo[..|redo| - 1])
  }

  lemma {:induction false} UndoReadyGrows(a: Items, b: Items, root: Id, undo: seq<Step>, origin: Items)
    requires Restores(a, b) && UndoReady(b, root, undo, origin)
    ensures UndoReady(a, root, undo, origin)
    decreases |undo|
  {
    if undo == [] {
      RestoresTransitive(a, b, origin);
    } else {
      var s := undo[|undo| - 1];
      HoldsTransitive(a, b, s.after);
      AppliedRestores(a, b, root, s, Before);
      UndoReadyGrows(Undone(a, root, s), Undone(b, root, s), root, undo[..|undo| - 1], origin);
    }
  }

  lemma HoldsTransitive(a: Items, b: Items, c: Items)
    requires Holds(a, b) && Holds(b, c)
    ensures Holds(a, c) && c.Keys <= b.Keys
  {
  }

  lemma {:induction false} RedoReadyGrows(a: Items, b: Items, root: Id, redo: seq<Step>)
    requires Restores(a, b) && RedoReady(b, root, redo)
    ensures RedoReady(a, root, redo)
    decreases |redo|
  {
    if redo != [] {
      var s := redo[|redo| - 1];
      HoldsTransitive(a, b, Undone(s.after, root, s));
      AppliedRestores(a, b, root, s, After);
      RedoReadyGrows(Redone(a, root, s), Redone(b, root, s), root, redo[..|redo| - 1]);
    }
  }

  // ---------- a local editing session ----------

  datatype Session = Session(doc: Items, undo: seq<Step>, redo: seq<Step>)

  ghost predicate Consistent(w: Session, root: Id, origin: Items) {
    UndoReady(w.doc, root, w.undo, origin) && RedoReady(w.doc, root, w.redo)
  }

  /** A structural transaction; one that changes nothing is not recorded. */
  ghost function Acted(w: Session, doc: Items, stamped: Stamped): Session {
    if Diff(w.doc, doc, stamped) == map[] then w.(doc := doc)
    else Session(doc, w.undo + [Step(w.doc, doc, stamped)], [])
  }

  ghost function UndoOne(w: Session, root: Id): Session {
    if w.undo == [] then w
    else
      var n := |w.undo| - 1;
      Session(Undone(w.doc, root, w.undo[n]), w.undo[..n], w.redo + [w.undo[n]])
  }

  ghost function RedoOne(w: Session, root: Id): Session {
    if w.redo == [] then w
    else
      var n := |w.redo| - 1;
      Session(Redone(w.doc, root, w.redo[n]), w.undo + [w.redo[n]], w.redo[..n])
  }

  lemma ActedHolds(w: Session, root: Id, origin: Items, doc: Items, stamped: Stamped)
    requires Consistent(w, root, origin) && Legal(Step(w.doc, doc, stamped), root)
    ensures Consistent(Acted(w, doc, stamped), root, origin)
  {
    hide Diff, Applied;
    var s := Step(w.doc, doc, stamped);
    DiffIsEmpty(w.doc, doc, stamped);
    UndoRestores(s, root);
    UndoReadyGrows(Undone(doc, root, s), w.doc, root, w.undo, origin);
    assert (w.undo + [s])[..|w.undo|] == w.undo;
  }

  lemma UndoHolds(w: Session, root: Id, origin: Items)
    requires Consistent(w, root, origin)
    ensures Consistent(UndoOne(w, root), root, origin)
  {
    hide Diff, Applied;
    if w.undo != [] {
      var n := |w.undo| - 1;
      var s := w.undo[n];
      RedoUndoes(w.doc, root, s);
      RedoReadyGrows(Redone(Undone(w.doc, root, s), root, s), w.doc, root, w.redo);
      assert (w.redo + [s])[..|w.redo|] == w.redo;
    }
  }

  lemma RedoHolds(w: Session, root: Id, origin: Items)
    requires Consistent(w, root, origin)
    ensures Consistent(RedoOne(w, root), root, origin)
  {
    hide Diff, Applied;
    if w.redo != [] {
      var n := |w.redo| - 1;
      var s := w.redo[n];
      UndoUndoes(w.doc, root, s);
      UndoReadyGrows(Undone(Redone(w.doc, root, s), root, s), w.doc, root, w.undo, origin);
      assert (w.undo + [s])[..|w.undo|] == w.undo;
    }
  }

  datatype Event = Act(doc: Items, stamped: Stamped) | Undo | Redo

  ghost predicate Possible(w: Session, root: Id, e: Event) {
    e.Act? ==> Legal(Step(w.doc, e.doc, e.stamped), root)
  }

  ghost function Advanced(w: Session, root: Id, e: Event): Session {
    match e
    case Act(doc, stamped) => Acted(w, doc, stamped)
    case Undo => UndoOne(w, root)
    case Redo => RedoOne(w, root)
  }

  ghost predicate LocalRun(root: Id, origin: Items, states: seq<Session>) {
    && |states| > 0 && states[0] == Session(origin, [], []) && root in origin
    && origin[root].parentId == ROOT_PARENT_SENTINEL
    && forall i :: 0 < i < |states| ==> Follows(root, states[i - 1], states[i])
  }

  ghost predicate Follows(root: Id, a: Session, b: Session) {
    exists e :: Possible(a, root, e) && b == Advanced(a, root, e)
  }

  lemma {:induction false} RunHolds(root: Id, origin: Items, states: seq<Session>, i: nat)
    requires LocalRun(root, origin, states) && i < |states|
    ensures Consistent(states[i], root, origin)
  {
    if i > 0 {
      RunHolds(root, origin, states, i - 1);
      assert Follows(root, states[i - 1], states[i]);
      hide Consistent, Acted, UndoOne, RedoOne;
      var e :| Possible(states[i - 1], root, e) && states[i] == Advanced(states[i - 1], root, e);
      match e
      case Act(doc, stamped) => ActedHolds(states[i - 1], root, origin, doc, stamped);
      case Undo => UndoHolds(states[i - 1], root, origin);
      case Redo => RedoHolds(states[i - 1], root, origin);
    }
  }

  // ---------- undo all, and undo against redo ----------

  ghost function Undos(w: Session, root: Id, k: nat): Session {
    if k == 0 then w else UndoOne(Undos(w, root, k - 1), root)
  }

  ghost function Redos(w: Session, root: Id, k: nat): Session {
    if k == 0 then w else RedoOne(Redos(w, root, k - 1), root)
  }

  /** The same registers in every item. */
  ghost predicate SameDocument(a: Items, b: Items) {
    a.Keys == b.Keys && forall id :: id in a ==> SameFields(a[id], b[id])
  }

  lemma {:induction false} UndosHold(w: Session, root: Id, origin: Items, k: nat)
    requires Consistent(w, root, origin) && k <= |w.undo|
    ensures Consistent(Undos(w, root, k), root, origin)
    ensures Undos(w, root, k).undo == w.undo[..|w.undo| - k]
    ensures |Undos(w, root, k).redo| == |w.redo| + k
  {
    hide Consistent, Undone;
    if k == 0 {
      assert w.undo[..|w.undo|] == w.undo;
    } else {
      UndosHold(w, root, origin, k - 1);
      UndoHolds(Undos(w, root, k - 1), root, origin);
      assert w.undo[..|w.undo| - (k - 1)][..|w.undo| - k] == w.undo[..|w.undo| - k];
    }
  }

  /** Undoing everything restores every item there was; what was created since is tombstoned. */
  lemma UndoAllRestores(root: Id, origin: Items, states: seq<Session>, i: nat)
    requires LocalRun(root, origin, states) && i < |states|
    ensures Restores(Undos(states[i], root, |states[i].undo|).doc, origin)
  {
    RunHolds(root, origin, states, i);
    UndosHold(states[i], root, origin, |states[i].undo|);
  }

  lemma RedoAfterUndo(w: Session, root: Id, origin: Items)
    requires Consistent(w, root, origin) && w.undo != []
    ensures var back := RedoOne(UndoOne(w, root), root);
      SameDocument(back.doc, w.doc) && back.undo == w.undo && back.redo == w.redo
  {
    hide Diff, Applied;
    var n := |w.undo| - 1;
    RedoUndoes(w.doc, root, w.undo[n]);
    assert (w.redo + [w.undo[n]])[..|w.redo|] == w.redo;
    assert w.undo[..n] + [w.undo[n]] == w.undo;
  }

  /** The same registers and the same stacks. */
  ghost predicate Alike(a: Session, b: Session) {
    SameDocument(a.doc, b.doc) && a.undo == b.undo && a.redo == b.redo
  }

  lemma RedoAlike(a: Session, b: Session, root: Id)
    requires Alike(a, b)
    ensures Alike(RedoOne(a, root), RedoOne(b, root))
  {
    hide Diff, Applied, Written, SameFields;
    if a.redo != [] {
      var s := a.redo[|a.redo| - 1];
      forall id | id in a.doc
        ensures SameFields(Redone(a.doc, root, s)[id], Redone(b.doc, root, s)[id])
      {
        AppliedAt(a.doc, root, Diff(s.before, s.after, s.stamped), After, id);
        AppliedAt(b.doc, root, Diff(s.before, s.after, s.stamped), After, id);
        if id in Diff(s.before, s.after, s.stamped) {
          WrittenAlike(a.doc[id], b.doc[id], Diff(s.before, s.after, s.stamped)[id], After, id == root);
        }
      }
    }
  }

  lemma {:induction false} RedosAlike(a: Session, b: Session, root: Id, k: nat)
    requires Alike(a, b)
    ensures Alike(Redos(a, root, k), Redos(b, root, k))
  {
    if k > 0 {
      RedosAlike(a, b, root, k - 1);
      RedoAlike(Redos(a, root, k - 1), Redos(b, root, k - 1), root);
    }
  }

  lemma {:induction false} RedosSplit(w: Session, root: Id, k: nat)
    requires k > 0
    ensures Redos(w, root, k) == Redos(RedoOne(w, root), root, k - 1)
  {
    if k > 1 {
      RedosSplit(w, root, k - 1);
    }
  }

  lemma {:induction false} ConsistentUndosThenRedos(w: Session, root: Id, origin: Items, k: nat)
    requires Consistent(w, root, origin) && k <= |w.undo|
    ensures Alike(Redos(Undos(w, root, k), root, k), w)
  {
    hide Consistent, UndoOne, RedoOne;
    if k > 0 {
      UndosHold(w, root, origin, k - 1);
      var u := Undos(w, root, k - 1);
      RedosSplit(UndoOne(u, root), root, k);
      RedoAfterUndo(u, root, origin);
      RedosAlike(RedoOne(UndoOne(u, root), root), u, root, k - 1);
      ConsistentUndosThenRedos(w, root, origin, k - 1);
    }
  }

  /** In a local session any number of undos, followed by as many redos, restores every register and both stacks. */
  lemma UndosThenRedos(root: Id, origin: Items, states: seq<Session>, i: nat, k: nat)
    requires LocalRun(root, origin, states) && i < |states| && k <= |states[i].undo|
    ensures Alike(Redos(Undos(states[i], root, k), root, k), states[i])
  {
    RunHolds(root, origin, states, i);
    ConsistentUndosThenRedos(states[i], root, origin, k);
  }

  // ---------- the history object ----------

  /** What undoing a step leaves of each item below the root, whatever the document holds by now. */
  ghost predicate StepUndone(was: Items, now: Items, root: Id, s: Step) {
    && now.Keys == was.Keys
    && forall id :: id in was && id != root ==>
         if id !in s.after then now[id] == was[id]
         else if id in s.before then TakesBack(was[id], now[id], s.before[id], s.after[id], id in s.stamped.moved)
         else now[id] == Item(was[id].parentId, was[id].rank, true, was[id].content, was[id].isCompleted)
  }

  ghost predicate StepRedone(was: Items, now: Items, root: Id, s: Step) {
    && now.Keys == was.Keys
    && forall id :: id in was && id != root ==>
         if id !in s.after then now[id] == was[id]
         else if id in s.before then TakesBack(was[id], now[id], s.after[id], s.before[id], id in s.stamped.moved)
         else now[id] == Item(s.after[id].parentId, s.after[id].rank, s.after[id].isDeleted, was[id].content, s.after[id].isCompleted)
  }

  lemma StepsAreWritten(doc: Items, root: Id, s: Step)
    ensures StepUndone(doc, Undone(doc, root, s), root, s) && StepRedone(doc, Redone(doc, root, s), root, s)
  {
    hide Undone, Redone, TakesBack;
    forall id | id in doc && id in s.after && id != root && id in s.before
      ensures TakesBack(doc[id], Undone(doc, root, s)[id], s.before[id], s.after[id], id in s.stamped.moved)
      ensures TakesBack(doc[id], Redone(doc, root, s)[id], s.after[id], s.before[id], id in s.stamped.moved)
    {
      RegistersWritten(doc, root, s.before, s.after, s.stamped, id);
    }
    forall id | id in doc && id in s.after && id != root && id !in s.before
      ensures Undone(doc, root, s)[id] == Item(doc[id].parentId, doc[id].rank, true, doc[id].content, doc[id].isCompleted)
      ensures Redone(doc, root, s)[id]
        == Item(s.after[id].parentId, s.after[id].rank, s.after[id].isDeleted, doc[id].content, s.after[id].isCompleted)
    {
      CreationWritten(doc, root, s.before, s.after, s.stamped, id);
    }
    forall id | id in doc && id !in s.after
      ensures Undone(doc, root, s)[id] == Redone(doc, root, s)[id] == doc[id]
    {
      UntouchedItems(doc, root, s.before, s.after, s.stamped, Before, id);
      UntouchedItems(doc, root, s.before, s.after, s.stamped, After, id);
      StepsApply(doc, root, s);
    }
  }

  lemma StepsApply(doc: Items, root: Id, s: Step)
    ensures Undone(doc, root, s) == Applied(doc, root, Diff(s.before, s.after, s.stamped), Before)
    ensures Redone(doc, root, s) == Applied(doc, root, Diff(s.before, s.after, s.stamped), After)
  {
  }

  class OutlineHistory {
    const rootId: Id
    var doc: Items
    var undo: seq<Action>
    var redo: seq<Action>
    ghost var undoSteps: seq<Step>
    ghost var redoSteps: seq<Step>

    /** The stacks record the differences the transactions made. */
    ghost predicate Valid()
      reads this
    {
      && |undo| == |undoSteps| && |redo| == |redoSteps|
      && (forall i :: 0 <= i < |undo| ==> undo[i] == Diff(undoSteps[i].before, undoSteps[i].after, undoSteps[i].stamped))
      && forall i :: 0 <= i < |redo| ==> redo[i] == Diff(redoSteps[i].before, redoSteps[i].after, redoSteps[i].stamped)
    }

    ghost function State(): Session
      reads this
    {
      Session(doc, undoSteps, redoSteps)
    }

    constructor (rootId: Id, doc: Items)
      ensures Valid() && this.rootId == rootId && State() == Session(doc, [], [])
    {
      this.rootId, this.doc := rootId, doc;
      undo, redo, undoSteps, redoSteps := [], [], [], [];
    }

    /** A local structural transaction leaves the document as `after`. */
    method Transact(after: Items, stamped: Stamped)
      requires Valid() && doc.Keys <= after.Keys
      modifies this
      ensures Valid() && State() == Acted(old(State()), after, stamped)
      ensures undo == old(undo) <==> old(doc) == after && (stamped.moved + stamped.marked) !! after.Keys
      ensures doc == after && (undo == old(undo) ==> redo == old(redo))
      ensures undo != old(undo) ==>
        undo[..|undo| - 1] == old(undo) && redo == [] && undoSteps == old(undoSteps) + [Step(old(doc), after, stamped)]
    {
      var changes := Diff(doc, after, stamped);
      DiffIsEmpty(doc, after, stamped);
      if changes != map[] {
        undo := undo + [changes];
        redo := [];
        undoSteps, redoSteps := undoSteps + [Step(doc, after, stamped)], [];
      }
      doc := after;
    }

    /** A transaction of someone else: the document moves, the stacks stay. */
    method Merge(after: Items)
      requires Valid()
      modifies this`doc
      ensures Valid() && State() == old(State()).(doc := after)
    {
      doc := after;
    }

    /** Write one side of an action back, change by change. */
    method Apply(action: Action, side: Side)
      modifies this`doc
      ensures doc == Applied(old(doc), rootId, action, side)
    {
      var left := action.Keys;
      ghost var done: set<Id> := {};
      while left != {}
        invariant left <= action.Keys && done == action.Keys - left
        invariant doc == Applied(old(doc), rootId, Within(action, done), side)
        decreases |left|
      {
        var id := Pick(left);
        ApplyStep(old(doc), rootId, action, done, side, id);
        if id in doc {
          doc := doc[id := Written(doc[id], action[id], side, id == rootId)];
        }
        left := left - {id};
        done := done + {id};
      }
      assert Within(action, done) == action;
    }

    method UndoLast()
      requires Valid()
      modifies this
      ensures Valid() && State() == UndoOne(old(State()), rootId)
      ensures old(undo) == [] ==> doc == old(doc) && undo == [] && redo == old(redo)
      ensures old(undo) != [] ==>
        var n := |old(undo)| - 1;
        && undo == old(undo)[..n] && redo == old(redo) + [old(undo)[n]]
        && StepUndone(old(doc), doc, rootId, old(undoSteps)[n])
    {
      hide Diff, Applied, StepUndone;
      if undo == [] {
        return;
      }
      var n := |undo| - 1;
      StepsAreWritten(doc, rootId, undoSteps[n]);
      Apply(undo[n], Before);
      undo, redo := undo[..n], redo + [undo[n]];
      undoSteps, redoSteps := undoSteps[..n], redoSteps + [undoSteps[n]];
    }

    method RedoLast()
      requires Valid()
      modifies this
      ensures Valid() && State() == RedoOne(old(State()), rootId)
      ensures old(redo) == [] ==> doc == old(doc) && undo == old(undo) && redo == []
      ensures old(redo) != [] ==>
        var n := |old(redo)| - 1;
        && redo == old(redo)[..n] && undo == old(undo) + [old(redo)[n]]
        && StepRedone(old(doc), doc, rootId, old(redoSteps)[n])
    {
      hide Diff, Applied, StepRedone;
      if redo == [] {
        return;
      }
      var n := |redo| - 1;
      StepsAreWritten(doc, rootId, redoSteps[n]);
      Apply(redo[n], After);
      undo, redo := undo + [redo[n]], redo[..n];
      undoSteps, redoSteps := undoSteps + [redoSteps[n]], redoSteps[..n];
    }
  }

  lemma DiffIsEmpty(a: Items, b: Items, stamped: Stamped)
    requires a.Keys <= b.Keys
    ensures Diff(a, b, stamped) == map[] <==> a == b && (stamped.moved + stamped.marked) !! b.Keys
  {
    var diff := Diff(a, b, stamped);
    if diff == map[] {
      forall id | id in b
        ensures id in a && a[id] == b[id] && id !in stamped.moved && id !in stamped.marked
      {
        assert id !in diff;
      }
      MapEquality(a, b);
    }
    if a == b && (stamped.moved + stamped.marked) !! b.Keys {
      assert forall id :: id !in diff;
    }
  }

  ghost function Within(action: Action, done: set<Id>): Action {
    map id | id in action && id in done :: action[id]
  }

  lemma ApplyStep(doc: Items, root: Id, action: Action, done: set<Id>, side: Side, id: Id)
    requires id in action && id !in done
    ensures var before := Applied(doc, root, Within(action, done), side);
      Applied(doc, root, Within(action, done + {id}), side)
      == if id in before then before[id := Written(before[id], action[id], side, id == root)] else before
  {
  }
}
