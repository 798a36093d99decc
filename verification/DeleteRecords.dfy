/**
 Deletion of an item as two grow-only records: every delete adds a fresh token,
 every restore acknowledges the tokens it knows, and the item is deleted while a
 token is unacknowledged. Each record is a map created on first use; when two
 replicas create it at the same time, one of the two maps wins.
 */
module DeleteRecords {
  datatype Token = Token(n: nat)

  // One created map; of two instances under the same key the greater one wins.
  datatype Slot = Absent | Present(instance: nat, tokens: set<Token>)

  datatype Records = Records(deletes: Slot, restores: Slot)

  function TokensOf(s: Slot): set<Token> {
    if s.Present? then s.tokens else {}
  }

  /** Some delete has not been acknowledged. */
  predicate IsDeleted(r: Records) {
    exists t :: t in TokensOf(r.deletes) && t !in TokensOf(r.restores)
  }

  // ---------- merging ----------

  function MergeSlots(a: Slot, b: Slot): Slot {
    if a.Absent? then b
    else if b.Absent? then a
    else if a.instance == b.instance then Present(a.instance, a.tokens + b.tokens)
    else if a.instance > b.instance then a
    else b
  }

  function Merge(a: Records, b: Records): Records {
    Records(MergeSlots(a.deletes, b.deletes), MergeSlots(a.restores, b.restores))
  }

  lemma MergeIsJoin(a: Records, b: Records, c: Records)
    ensures Merge(a, b) == Merge(b, a)
    ensures Merge(a, a) == a
    ensures Merge(Merge(a, b), c) == Merge(a, Merge(b, c))
  {
    SlotsJoin(a.deletes, b.deletes, c.deletes);
    SlotsJoin(a.restores, b.restores, c.restores);
  }

  lemma SlotsJoin(a: Slot, b: Slot, c: Slot)
    ensures MergeSlots(a, b) == MergeSlots(b, a)
    ensures MergeSlots(a, a) == a
    ensures MergeSlots(MergeSlots(a, b), c) == MergeSlots(a, MergeSlots(b, c))
  {
    assert TokensOf(a) + TokensOf(b) == TokensOf(b) + TokensOf(a);
    assert TokensOf(a) + TokensOf(b) + TokensOf(c) == TokensOf(a) + (TokensOf(b) + TokensOf(c));
    assert TokensOf(a) + TokensOf(a) == TokensOf(a);
  }

  /** What a replica holds after it has received `states` one after the other. */
  function MergeAll(r: Records, states: seq<Records>): Records {
    if states == [] then r else Merge(MergeAll(r, states[..|states| - 1]), states[|states| - 1])
  }

  predicate Includes(a: Records, b: Records) {
    Merge(a, b) == a
  }

  lemma IncludesMerged(a: Records, b: Records)
    ensures Includes(Merge(a, b), a) && Includes(Merge(a, b), b)
  {
    MergeIsJoin(a, b, b);
    MergeIsJoin(a, b, a);
    MergeIsJoin(b, a, a);
  }

  lemma IncludesTransitive(a: Records, b: Records, c: Records)
    requires Includes(a, b) && Includes(b, c)
    ensures Includes(a, c)
  {
    MergeIsJoin(a, b, c);
  }

  lemma {:induction false} MergeAllIncludes(r: Records, states: seq<Records>)
    ensures Includes(MergeAll(r, states), r)
    ensures forall s :: s in states ==> Includes(MergeAll(r, states), s)
  {
    hide Includes, Merge;
    if states == [] {
      SelfIncluded(r);
    } else {
      var n := |states| - 1;
      var before := MergeAll(r, states[..n]);
      MergeAllIncludes(r, states[..n]);
      IncludesMerged(before, states[n]);
      IncludesTransitive(Merge(before, states[n]), before, r);
      forall s | s in states
        ensures Includes(MergeAll(r, states), s)
      {
        if s in states[..n] {
          IncludesTransitive(Merge(before, states[n]), before, s);
        }
      }
    }
  }

  lemma SelfIncluded(r: Records)
    ensures Includes(r, r)
  {
    MergeIsJoin(r, r, r);
  }

  lemma {:induction false} MergeAllIsLeast(r: Records, states: seq<Records>, bound: Records)
    requires Includes(bound, r) && forall s :: s in states ==> Includes(bound, s)
    ensures Includes(bound, MergeAll(r, states))
  {
    if states != [] {
      var n := |states| - 1;
      MergeAllIsLeast(r, states[..n], bound);
      assert states[n] in states;
      MergeIsJoin(bound, MergeAll(r, states[..n]), states[n]);
    }
  }

  /** Replicas that received the same states hold the same records, whatever the order and however often. */
  lemma MergesConverge(r: Records, xs: seq<Records>, ys: seq<Records>)
    requires forall s :: s in xs <==> s in ys
    ensures MergeAll(r, xs) == MergeAll(r, ys)
  {
    MergeAllIncludes(r, xs);
    MergeAllIncludes(r, ys);
    MergeAllIsLeast(r, xs, MergeAll(r, ys));
    MergeAllIsLeast(r, ys, MergeAll(r, xs));
    MergeIsJoin(MergeAll(r, xs), MergeAll(r, ys), r);
  }

  /** `t` is deleted and not acknowledged. */
  predicate Open(r: Records, t: Token) {
    t in TokensOf(r.deletes) && t !in TokensOf(r.restores)
  }

  /**
   A delete that neither side has acknowledged is still open after a merge exactly
   when its map is not beaten by another one that lacks it.
   */
  lemma OpenDeleteSurvivesMerge(a: Records, b: Records, t: Token)
    requires Open(a, t) && t !in TokensOf(b.restores)
    ensures Open(Merge(a, b), t)
       <==> b.deletes.Absent? || a.deletes.instance >= b.deletes.instance || t in b.deletes.tokens
  {
  }

  /** The other map was created under a greater instance, or this one was never created. */
  ghost predicate Beaten(s: Slot, other: Slot) {
    other.Present? && (s.Present? ==> other.instance > s.instance)
  }

  /** After a merge a token is there exactly when a map that is not beaten has it, for deletes and for acknowledgements. */
  lemma MergeMeans(a: Records, b: Records, t: Token)
    ensures t in TokensOf(Merge(a, b).deletes) <==>
      || (a.deletes.Present? && t in a.deletes.tokens && !Beaten(a.deletes, b.deletes))
      || (b.deletes.Present? && t in b.deletes.tokens && !Beaten(b.deletes, a.deletes))
    ensures t in TokensOf(Merge(a, b).restores) <==>
      || (a.restores.Present? && t in a.restores.tokens && !Beaten(a.restores, b.restores))
      || (b.restores.Present? && t in b.restores.tokens && !Beaten(b.restores, a.restores))
  {
  }

  /** With both maps shared: deleted after a merge exactly when one side knows a delete that neither has acknowledged. */
  lemma MergedIsDeleted(a: Records, b: Records)
    requires a.deletes.Present? && b.deletes.Present? && a.deletes.instance == b.deletes.instance
    requires a.restores.Present? && b.restores.Present? && a.restores.instance == b.restores.instance
    ensures IsDeleted(Merge(a, b)) <==> exists t ::
      (t in a.deletes.tokens || t in b.deletes.tokens) && t !in a.restores.tokens && t !in b.restores.tokens
  {
    forall t
      ensures t in TokensOf(Merge(a, b).deletes) <==> t in a.deletes.tokens || t in b.deletes.tokens
      ensures t in TokensOf(Merge(a, b).restores) <==> t in a.restores.tokens || t in b.restores.tokens
    {
      MergeMeans(a, b, t);
    }
  }

  // ---------- writing ----------

  function Ensured(s: Slot, instance: nat): Slot {
    if s.Absent? then Present(instance, {}) else s
  }

  /** Both maps are created if needed, under the writer's instance; then the delete or the acknowledgements go in. */
  function Written(r: Records, isDeleted: bool, token: Token, instance: nat): Records {
    var deletes, restores := Ensured(r.deletes, instance), Ensured(r.restores, instance);
    if isDeleted then Records(deletes.(tokens := deletes.tokens + {token}), restores)
    else Records(deletes, restores.(tokens := restores.tokens + deletes.tokens))
  }

  /** A delete deletes and a restore restores, as the writer sees it. */
  lemma WritesTakeEffect(r: Records, isDeleted: bool, token: Token, instance: nat)
    requires token !in TokensOf(r.restores)
    ensures IsDeleted(Written(r, isDeleted, token, instance)) <==> isDeleted
  {
    var w := Written(r, isDeleted, token, instance);
    if isDeleted {
      assert token in TokensOf(w.deletes);
    }
  }

  class ItemNode {
    var deletes: Slot
    var restores: Slot

    function State(): Records
      reads this
    {
      Records(deletes, restores)
    }

    constructor ()
      ensures State() == Records(Absent, Absent)
    {
      deletes, restores := Absent, Absent;
    }

    method WriteDeleted(isDeleted: bool, token: Token, instance: nat)
      modifies this
      ensures State() == Written(old(State()), isDeleted, token, instance)
      ensures deletes.Present? && restores.Present?
      ensures deletes.instance == if old(deletes).Present? then old(deletes).instance else instance
      ensures restores.instance == if old(restores).Present? then old(restores).instance else instance
      ensures var knew := if old(deletes).Present? then old(deletes).tokens else {};
        deletes.tokens == if isDeleted then knew + {token} else knew
      ensures var knew, had := if old(deletes).Present? then old(deletes).tokens else {},
                               if old(restores).Present? then old(restores).tokens else {};
        restores.tokens == if isDeleted then had else had + knew
    {
      if deletes.Absent? {
        deletes := Present(instance, {});
      }
      if restores.Absent? {
        restores := Present(instance, {});
      }
      if isDeleted {
        deletes := deletes.(tokens := deletes.tokens + {token});
      } else {
        Acknowledge();
      }
    }

    method Acknowledge()
      requires deletes.Present? && restores.Present?
      modifies this`restores
      ensures restores == old(restores).(tokens := old(restores).tokens + deletes.tokens)
    {
      var left := deletes.tokens;
      while left != {}
        invariant left <= deletes.tokens && restores.Present? && restores.instance == old(restores).instance
        invariant restores.tokens == old(restores).tokens + (deletes.tokens - left)
        decreases |left|
      {
        var t :| t in left;
        restores := restores.(tokens := restores.tokens + {t});
        left := left - {t};
      }
    }

    method ReadDeleted() returns (active: bool)
      ensures active == IsDeleted(State())
      ensures active <==> deletes.Present? && exists t :: t in deletes.tokens && (restores.Absent? || t !in restores.tokens)
    {
      active := TokensOf(deletes) - TokensOf(restores) != {};
      if active {
        var t :| t in TokensOf(deletes) - TokensOf(restores);
      } else {
        assert forall t :: t in TokensOf(deletes) ==> t in TokensOf(restores) by {
          forall t | t in TokensOf(deletes)
            ensures t in TokensOf(restores)
          {
            assert t !in TokensOf(deletes) - TokensOf(restores);
          }
        }
      }
    }
  }

  // ---------- replicas that share both maps ----------

  datatype Replica = Replica(n: nat)

  /** `acked` are the tokens that some restore acknowledged; `sent` every state a replica ever showed. */
  datatype World = World(records: map<Replica, Records>, sent: set<Records>, used: set<Token>, acked: set<Token>)

  datatype Action =
    | Delete(r: Replica, token: Token)
    | Restore(r: Replica)
    | Receive(r: Replica, state: Records)

  const EMPTY: Records := Records(Present(0, {}), Present(0, {}))

  ghost predicate Enabled(w: World, action: Action) {
    match action
    case Delete(r, token) => r in w.records && token !in w.used
    case Restore(r) => r in w.records
    case Receive(r, state) => r in w.records && state in w.sent
  }

  function Showing(w: World, r: Replica, state: Records): World {
    w.(records := w.records[r := state], sent := w.sent + {state})
  }

  ghost function After(w: World, action: Action): World
    requires Enabled(w, action)
  {
    match action
    case Delete(r, token) => Showing(w, r, Written(w.records[r], true, token, 0)).(used := w.used + {token})
    case Restore(r) =>
      Showing(w, r, Written(w.records[r], false, Token(0), 0)).(acked := w.acked + TokensOf(w.records[r].deletes))
    case Receive(r, state) => Showing(w, r, Merge(w.records[r], state))
  }

  ghost predicate Shared(rs: Records) {
    rs.deletes.Present? && rs.restores.Present? && rs.deletes.instance == 0 && rs.restores.instance == 0
  }

  /** Both maps are the shared ones, and an acknowledgement is for a delete that some restore knew. */
  ghost predicate Honest(w: World, rs: Records) {
    Shared(rs) && TokensOf(rs.restores) <= TokensOf(rs.deletes) && TokensOf(rs.restores) <= w.acked
    && TokensOf(rs.deletes) <= w.used
  }

  ghost predicate Inv(w: World) {
    (forall r :: r in w.records ==> Honest(w, w.records[r])) && forall s :: s in w.sent ==> Honest(w, s)
  }

  ghost predicate Next(a: World, b: World) {
    exists action :: Enabled(a, action) && b == After(a, action)
  }

  /** Every replica starts with both maps in its history. */
  ghost predicate Run(states: seq<World>) {
    && |states| > 0 && states[0].sent == {} && states[0].used == {} && states[0].acked == {}
    && (forall r :: r in states[0].records ==> states[0].records[r] == EMPTY)
    && forall i :: 0 < i < |states| ==> Next(states[i - 1], states[i])
  }

  lemma StepHolds(w: World, action: Action)
    requires Inv(w) && Enabled(w, action)
    ensures Inv(After(w, action))
    ensures w.acked <= After(w, action).acked
  {
  }

  lemma {:induction false} RunHolds(states: seq<World>, i: nat)
    requires Run(states) && i < |states|
    ensures Inv(states[i])
  {
    if i > 0 {
      hide Inv, Enabled, After;
      RunHolds(states, i - 1);
      assert Next(states[i - 1], states[i]);
      var action :| Enabled(states[i - 1], action) && states[i] == After(states[i - 1], action);
      StepHolds(states[i - 1], action);
    }
  }

  /** A delete that no restore knew of when it was written keeps the item deleted wherever it arrives. */
  lemma ConcurrentDeleteSurvives(states: seq<World>, i: nat, r: Replica, t: Token)
    requires Run(states) && i < |states| && r in states[i].records
    requires t in TokensOf(states[i].records[r].deletes) && t !in states[i].acked
    ensures IsDeleted(states[i].records[r])
  {
    RunHolds(states, i);
    assert t !in TokensOf(states[i].records[r].restores);
  }

  // ---------- replicas that create the maps at the same time ----------

  /**
   One replica deletes while another, which has not heard of it, deletes and
   restores, each creating the maps itself: the merge can show the item as live.
   */
  lemma LazyMapsCanLoseADelete(t: Token, u: Token)
    requires t != u
    ensures var none := Records(Absent, Absent);
      var a := Written(none, true, t, 1);
      var b := Written(Written(none, true, u, 2), false, u, 2);
      IsDeleted(a) && !IsDeleted(b) && !IsDeleted(Merge(a, b))
  {
    var none := Records(Absent, Absent);
    var a := Written(none, true, t, 1);
    assert t in TokensOf(a.deletes);
    var b := Written(Written(none, true, u, 2), false, u, 2);
    assert Merge(a, b) == b;
  }
}
