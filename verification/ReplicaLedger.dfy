/**
 The replica-acknowledgement ledger and the gate it puts before tombstone
 collection: connections come and go, acknowledgements are written late or not at
 all, and a tombstone is removed only when every replica in the ledger has it.

 Assumed of the world around: the server's clock does not go back, what arrives
 at the server reaches every replica connected at that moment, and a replica id
 has one live connection.
 */
module ReplicaLedger {
  import opened Collections

  datatype Replica = Replica(n: nat)

  datatype Tomb = Tomb(n: nat)

  type Time = nat

  datatype Row = Row(lastSynced: Option<Time>, lastSeen: Time)

  type Ledger = map<Replica, Row>

  // A ledger write on its way; `synced` says that the replica had completed a sync at `at`.
  datatype Touch = Touch(replica: Replica, synced: bool, at: Time)

  // `synced` is the server's flag; `caughtUp` is whether the client holds the initial state.
  datatype Connection = Connection(tracked: bool, synced: bool, caughtUp: bool)

  // ---------- the ledger ----------

  function Latest(a: Option<Time>, b: Option<Time>): Option<Time> {
    if a.None? then b else if b.None? then a else if a.value >= b.value then a else b
  }

  function Later(a: Time, b: Time): Time {
    if a >= b then a else b
  }

  function Touched(ledger: Ledger, touch: Touch): Ledger {
    var synced := if touch.synced then Some(touch.at) else None;
    var row := if touch.replica in ledger
               then Row(Latest(ledger[touch.replica].lastSynced, synced), Later(ledger[touch.replica].lastSeen, touch.at))
               else Row(synced, touch.at);
    ledger[touch.replica := row]
  }

  predicate SyncedAfter(row: Row, deletedAt: Time) {
    row.lastSynced.Some? && row.lastSynced.value > deletedAt
  }

  /** A known replica that never synced, or not strictly after `deletedAt`, blocks. */
  predicate Blocks(ledger: Ledger, deletedAt: Time) {
    exists r :: r in ledger && !SyncedAfter(ledger[r], deletedAt)
  }

  /** Late, repeated or reordered writes end in the same row. */
  lemma TouchesCommute(ledger: Ledger, a: Touch, b: Touch)
    ensures Touched(Touched(ledger, a), b) == Touched(Touched(ledger, b), a)
    ensures Touched(Touched(ledger, a), a) == Touched(ledger, a)
  {
    assert Touched(Touched(ledger, a), b).Keys == Touched(Touched(ledger, b), a).Keys;
  }

  // ---------- the protocol ----------

  /**
   `arrived` and `deletedAt` give each tombstone's arrival at the server and its
   projection; `received` is what each replica holds. `deciding` and `witnesses`
   are the tombstones of a collection under way and the replicas in the ledger
   when it read the ledger.
   */
  datatype World = World(now: Time, arrived: map<Tomb, Time>, deletedAt: map<Tomb, Time>,
                         live: map<Replica, Connection>, ledger: Ledger, writes: set<Touch>,
                         received: map<Replica, set<Tomb>>, deciding: set<Tomb>, witnesses: set<Replica>,
                         collected: set<Tomb>)

  datatype Action =
    | Tick(time: Time)
    | Arrive(x: Tomb)
    | Project(x: Tomb)
    | Connect(r: Replica, tracked: bool)
    | CatchUp(r: Replica)
    | Acknowledge(r: Replica)
    | Disconnect(r: Replica)
    | Heartbeat
    | WriteLands(touch: Touch)
    | WriteFails(touch: Touch)
    | Forget(r: Replica)
    | Decide(xs: set<Tomb>, cutoff: Time)
    | Collect

  function Start(): World {
    World(0, map[], map[], map[], map[], {}, map[], {}, {}, {})
  }

  predicate HasUnsynced(live: map<Replica, Connection>) {
    exists r :: r in live && !live[r].synced
  }

  function Held(w: World, r: Replica): set<Tomb> {
    if r in w.received then w.received[r] else {}
  }

  /** Aged, projected, and past every replica in the ledger. */
  ghost predicate Eligible(w: World, x: Tomb, cutoff: Time) {
    x in w.deletedAt && w.deletedAt[x] < cutoff && !Blocks(w.ledger, w.deletedAt[x])
  }

  ghost predicate Enabled(w: World, action: Action) {
    match action
    case Tick(time) => w.now <= time
    case Arrive(x) => x !in w.arrived
    case Project(x) => x in w.arrived && x !in w.deletedAt
    case Connect(r, _) => r !in w.live
    case CatchUp(r) => r in w.live
    case Acknowledge(r) => r in w.live && w.live[r].caughtUp
    case Disconnect(r) => r in w.live
    case Heartbeat => true
    case WriteLands(touch) => touch in w.writes
    case WriteFails(touch) => touch in w.writes
    case Forget(r) => r in w.ledger
    case Decide(xs, cutoff) => !HasUnsynced(w.live) && forall x :: x in xs ==> Eligible(w, x, cutoff)
    case Collect => true
  }

  function Noted(w: World, r: Replica, c: Connection): set<Touch> {
    if c.tracked then w.writes + {Touch(r, c.synced, w.now)} else w.writes
  }

  ghost function After(w: World, action: Action): World
    requires Enabled(w, action)
  {
    match action
    case Tick(time) => w.(now := time)
    case Arrive(x) =>
      w.(arrived := w.arrived[x := w.now],
         received := map r | r in w.received.Keys + w.live.Keys :: Held(w, r) + if r in w.live then {x} else {})
    case Project(x) => w.(deletedAt := w.deletedAt[x := w.now])
    case Connect(r, tracked) =>
      var c := Connection(tracked, false, false);
      w.(live := w.live[r := c], writes := Noted(w, r, c))
    case CatchUp(r) =>
      w.(live := w.live[r := w.live[r].(caughtUp := true)],
         received := w.received[r := Held(w, r) + w.arrived.Keys])
    case Acknowledge(r) =>
      var c := w.live[r].(synced := true);
      w.(live := w.live[r := c], writes := Noted(w, r, c))
    case Disconnect(r) =>
      w.(live := w.live - {r}, writes := Noted(w, r, w.live[r]))
    case Heartbeat =>
      w.(writes := w.writes + set r | r in w.live && w.live[r].tracked :: Touch(r, w.live[r].synced, w.now))
    case WriteLands(touch) => w.(ledger := Touched(w.ledger, touch), writes := w.writes - {touch})
    case WriteFails(touch) => w.(writes := w.writes - {touch})
    case Forget(r) => w.(ledger := w.ledger - {r})
    case Decide(xs, _) => w.(deciding := xs, witnesses := w.ledger.Keys)
    case Collect =>
      if HasUnsynced(w.live) then w.(deciding := {})
      else w.(collected := w.collected + w.deciding, deciding := {})
  }

  ghost predicate Next(a: World, b: World) {
    exists action :: Enabled(a, action) && b == After(a, action)
  }

  ghost predicate Run(states: seq<World>) {
    && |states| > 0 && states[0] == Start()
    && forall i :: 0 < i < |states| ==> Next(states[i - 1], states[i])
  }

  // ---------- what reaches the ledger ----------

  /** A tracked connection as it opens, is acknowledged, beats or closes. */
  ghost predicate Reports(w: World, action: Action, r: Replica, synced: bool) {
    match action
    case Connect(q, tracked) => q == r && tracked && !synced
    case Acknowledge(q) => q == r && r in w.live && w.live[r].tracked && synced
    case Disconnect(q) => q == r && r in w.live && w.live[r].tracked && synced == w.live[r].synced
    case Heartbeat => r in w.live && w.live[r].tracked && synced == w.live[r].synced
    case _ => false
  }

  /** Its write is on the way; once it lands the row is seen since, and acknowledged since exactly when the connection was. */
  lemma ReportsReachTheLedger(w: World, action: Action, r: Replica, synced: bool)
    requires Enabled(w, action) && Reports(w, action, r, synced)
    ensures var sent, touch := After(w, action), Touch(r, synced, w.now);
      && Enabled(sent, WriteLands(touch))
      && var landed := After(sent, WriteLands(touch)).ledger;
      && r in landed && landed[r].lastSeen >= w.now
      && (synced ==> landed[r].lastSynced.Some? && landed[r].lastSynced.value >= w.now)
      && (!synced ==> landed[r].lastSynced == if r in w.ledger then w.ledger[r].lastSynced else None)
      && forall q :: q != r ==> (q in landed <==> q in w.ledger) && (q in landed ==> landed[q] == w.ledger[q])
  {
  }

  // ---------- what it means to have received a tombstone ----------

  ghost predicate Trace(states: seq<World>, actions: seq<Action>) {
    && |states| == |actions| + 1 && states[0] == Start()
    && forall i :: 0 <= i < |actions| ==> Enabled(states[i], actions[i]) && states[i + 1] == After(states[i], actions[i])
  }

  /** Connected when it arrives, or catching up later. */
  ghost predicate Receives(w: World, action: Action, r: Replica, x: Tomb) {
    (action == Arrive(x) && r in w.live) || (action == CatchUp(r) && x in w.arrived)
  }

  lemma HeldStep(w: World, action: Action, r: Replica, x: Tomb)
    requires Enabled(w, action)
    ensures x in Held(After(w, action), r) <==> x in Held(w, r) || Receives(w, action, r, x)
  {
    hide Eligible, HasUnsynced, Touched;
  }

  /** Over every run: a replica has a tombstone exactly when it was connected as it arrived, or caught up afterwards. */
  lemma {:induction false} HeldMeans(states: seq<World>, actions: seq<Action>, i: nat, r: Replica, x: Tomb)
    requires Trace(states, actions) && i < |states|
    ensures x in Held(states[i], r) <==> exists j: nat :: j < i && Receives(states[j], actions[j], r, x)
  {
    hide Enabled, After, Receives;
    if i > 0 {
      HeldMeans(states, actions, i - 1, r, x);
      HeldStep(states[i - 1], actions[i - 1], r, x);
    }
  }

  // ---------- the invariant ----------

  ghost predicate ClocksHold(w: World) {
    && (forall x :: x in w.arrived ==> w.arrived[x] <= w.now)
    && forall x :: x in w.deletedAt ==> x in w.arrived && w.arrived[x] <= w.deletedAt[x]
  }

  /** Whoever the server believes synced has caught up, and then holds everything that arrived. */
  ghost predicate LiveHold(w: World) {
    forall r :: r in w.live ==>
      (w.live[r].synced ==> w.live[r].caughtUp)
      && (w.live[r].caughtUp ==> w.arrived.Keys <= Held(w, r))
  }

  /** The replica holds everything that arrived before `t`. */
  ghost predicate SyncedPast(w: World, r: Replica, t: Time) {
    t <= w.now && forall x :: x in w.arrived && w.arrived[x] < t ==> x in Held(w, r)
  }

  /** An acknowledgement, written or on its way, is true. */
  ghost predicate AcksHold(w: World) {
    && (forall r :: r in w.ledger && w.ledger[r].lastSynced.Some? ==> SyncedPast(w, r, w.ledger[r].lastSynced.value))
    && forall touch :: touch in w.writes && touch.synced ==> SyncedPast(w, touch.replica, touch.at)
  }

  /** What is about to be collected is held by everyone who was in the ledger. */
  ghost predicate DecisionHolds(w: World) {
    && w.deciding <= w.arrived.Keys
    && forall x, r :: x in w.deciding && r in w.witnesses ==> x in Held(w, r)
  }

  ghost predicate Inv(w: World) {
    ClocksHold(w) && LiveHold(w) && AcksHold(w) && DecisionHolds(w)
  }

  // ---------- one step ----------

  /** What a replica holds it keeps, and what was acknowledged stays acknowledged. */
  lemma ArriveHolds(w: World, x: Tomb)
    requires Inv(w) && Enabled(w, Arrive(x))
    ensures Inv(After(w, Arrive(x)))
  {
    var after := After(w, Arrive(x));
    forall r
      ensures Held(w, r) <= Held(after, r)
      ensures r in w.live ==> x in Held(after, r)
    {
    }
    forall r, t | SyncedPast(w, r, t)
      ensures SyncedPast(after, r, t)
    {
    }
  }

  lemma CatchUpHolds(w: World, r: Replica)
    requires Inv(w) && Enabled(w, CatchUp(r))
    ensures Inv(After(w, CatchUp(r)))
  {
    var after := After(w, CatchUp(r));
    forall q
      ensures Held(w, q) <= Held(after, q)
    {
    }
    forall q, t | SyncedPast(w, q, t)
      ensures SyncedPast(after, q, t)
    {
    }
  }

  lemma SyncedIsPastNow(w: World, r: Replica)
    requires LiveHold(w) && r in w.live && w.live[r].synced
    ensures SyncedPast(w, r, w.now)
  {
  }

  /** Steps that leave clocks, arrivals and holdings alone keep every acknowledgement. */
  lemma WritesHold(w: World, after: World)
    requires Inv(w)
    requires after == w.(live := after.live, writes := after.writes, ledger := after.ledger)
    requires LiveHold(after)
    requires forall touch :: touch in after.writes && touch.synced && touch !in w.writes ==> SyncedPast(w, touch.replica, touch.at)
    requires forall r :: r in after.ledger && after.ledger[r].lastSynced.Some? ==>
      SyncedPast(w, r, after.ledger[r].lastSynced.value)
    ensures Inv(after)
  {
    forall r, t
      ensures SyncedPast(w, r, t) == SyncedPast(after, r, t)
    {
    }
  }

  lemma LandingHolds(w: World, touch: Touch)
    requires Inv(w) && touch in w.writes
    ensures Inv(After(w, WriteLands(touch)))
  {
    var after := After(w, WriteLands(touch));
    forall r | r in after.ledger && after.ledger[r].lastSynced.Some?
      ensures SyncedPast(w, r, after.ledger[r].lastSynced.value)
    {
    }
    hide Inv, SyncedPast;
    LiveAsBefore(w, after);
    WritesHold(w, after);
  }

  lemma LiveAsBefore(w: World, after: World)
    requires Inv(w) && after.live == w.live && after.arrived == w.arrived && after.received == w.received
    ensures LiveHold(after)
  {
  }

  lemma ConnectionHolds(w: World, action: Action)
    requires Inv(w) && Enabled(w, action)
    requires action.Connect? || action.Acknowledge? || action.Disconnect? || action.Heartbeat?
    ensures Inv(After(w, action))
  {
    var after := After(w, action);
    forall r
      ensures Held(after, r) == Held(w, r)
    {
    }
    forall touch | touch in after.writes && touch.synced && touch !in w.writes
      ensures SyncedPast(w, touch.replica, touch.at)
    {
      if action.Acknowledge? {
        assert w.live[action.r].caughtUp;
      } else {
        SyncedIsPastNow(w, touch.replica);
      }
    }
    WritesHold(w, after);
  }

  /** A tombstone past every ledger row has been received by every replica in the ledger. */
  lemma EligibleIsHeld(w: World, x: Tomb, cutoff: Time, r: Replica)
    requires Inv(w) && Eligible(w, x, cutoff) && r in w.ledger
    ensures x in Held(w, r) && x in w.arrived
  {
    assert w.ledger[r].lastSynced.Some? && w.ledger[r].lastSynced.value > w.deletedAt[x];
    assert SyncedPast(w, r, w.ledger[r].lastSynced.value);
  }

  lemma DecideHolds(w: World, xs: set<Tomb>, cutoff: Time)
    requires Inv(w) && Enabled(w, Decide(xs, cutoff))
    ensures Inv(After(w, Decide(xs, cutoff)))
  {
    var after := After(w, Decide(xs, cutoff));
    forall x | x in xs
      ensures x in w.arrived
    {
      assert Eligible(w, x, cutoff);
    }
    forall x, r | x in xs && r in w.ledger
      ensures x in Held(after, r)
    {
      EligibleIsHeld(w, x, cutoff, r);
    }
    assert AcksHold(after) by {
      forall r, t
        ensures SyncedPast(w, r, t) == SyncedPast(after, r, t)
      {
      }
    }
  }

  lemma QuietHolds(w: World, after: World)
    requires Inv(w)
    requires after == w.(now := after.now, deletedAt := after.deletedAt, ledger := after.ledger, writes := after.writes,
                        deciding := after.deciding, collected := after.collected)
    requires w.now <= after.now && after.writes <= w.writes && after.deciding <= w.deciding
    requires forall r :: r in after.ledger ==> r in w.ledger && after.ledger[r] == w.ledger[r]
    requires forall x :: x in after.deletedAt ==> x in w.arrived && w.arrived[x] <= after.deletedAt[x]
    ensures Inv(after)
  {
    forall r, t | SyncedPast(w, r, t)
      ensures SyncedPast(after, r, t)
    {
    }
    forall r
      ensures Held(after, r) == Held(w, r)
    {
    }
  }

  /** Every step keeps the invariant. */
  lemma StepHolds(w: World, action: Action)
    requires Inv(w) && Enabled(w, action)
    ensures Inv(After(w, action))
  {
    hide SyncedPast, LiveHold, AcksHold, DecisionHolds, Eligible, Blocks;
    match action
    case Arrive(x) => ArriveHolds(w, x);
    case CatchUp(r) => CatchUpHolds(w, r);
    case WriteLands(touch) => LandingHolds(w, touch);
    case Decide(xs, cutoff) => DecideHolds(w, xs, cutoff);
    case Connect(_, _) => ConnectionHolds(w, action);
    case Acknowledge(_) => ConnectionHolds(w, action);
    case Disconnect(_) => ConnectionHolds(w, action);
    case Heartbeat => ConnectionHolds(w, action);
    case _ => QuietHolds(w, After(w, action));
  }

  // ---------- whole runs ----------

  lemma {:induction false} RunHolds(states: seq<World>, i: nat)
    requires Run(states) && i < |states|
    ensures Inv(states[i])
  {
    if i == 0 {
      assert Inv(Start());
    } else {
      hide Inv, Enabled, After;
      RunHolds(states, i - 1);
      assert Next(states[i - 1], states[i]);
      var action :| Enabled(states[i - 1], action) && states[i] == After(states[i - 1], action);
      StepHolds(states[i - 1], action);
    }
  }

  /**
   Whatever a collection removes has been received by every replica that was in
   the ledger when it read the ledger, and by every replica connected when it removes.
   */
  lemma CollectionIsSafe(states: seq<World>, i: nat, x: Tomb, r: Replica)
    requires Run(states) && i < |states|
    requires x in After(states[i], Collect).collected && x !in states[i].collected
    requires r in states[i].witnesses || r in states[i].live
    ensures x in Held(states[i], r)
  {
    RunHolds(states, i);
  }

  /** What a tombstone's arrival time says is enough: an acknowledgement at `t` covers all that came before `t`. */
  lemma AcknowledgementsAreTrue(states: seq<World>, i: nat, r: Replica, x: Tomb)
    requires Run(states) && i < |states|
    requires r in states[i].ledger && states[i].ledger[r].lastSynced.Some?
    requires x in states[i].arrived && states[i].arrived[x] < states[i].ledger[r].lastSynced.value
    ensures x in Held(states[i], r)
  {
    RunHolds(states, i);
    assert SyncedPast(states[i], r, states[i].ledger[r].lastSynced.value);
  }

  /**
   The gate is strict for a reason: an acknowledgement can carry the very time at
   which a tombstone arrives and is projected, without the replica having it.
   */
  lemma EqualTimesProveNothing(r: Replica, x: Tomb) returns (states: seq<World>)
    ensures Run(states)
    ensures var w := states[|states| - 1];
      && r in w.ledger && x in w.deletedAt && w.ledger[r].lastSynced == Some(w.deletedAt[x]) && x !in Held(w, r)
      && Blocks(w.ledger, w.deletedAt[x])
  {
    states := AckedAndGone(r);
    var gone := states[|states| - 1];
    var arrived := After(gone, Arrive(x));
    var projected := After(arrived, Project(x));
    assert projected.ledger[r].lastSynced == Some(0);
    hide After, Enabled;
    RunExtends(states, Arrive(x));
    RunExtends(states + [arrived], Project(x));
    states := states + [arrived] + [projected];
  }

  lemma RunExtends(states: seq<World>, action: Action)
    requires Run(states) && Enabled(states[|states| - 1], action)
    ensures Run(states + [After(states[|states| - 1], action)])
  {
    hide After, Enabled;
    var more := states + [After(states[|states| - 1], action)];
    forall i | 0 < i < |more|
      ensures Next(more[i - 1], more[i])
    {
      if i < |states| {
        assert Next(states[i - 1], states[i]);
      }
    }
  }

  /** A replica connects, catches up, is acknowledged at time 0 and leaves. */
  lemma AckedAndGone(r: Replica) returns (states: seq<World>)
    ensures Run(states)
    ensures var w := states[|states| - 1];
      w == Start().(ledger := map[r := Row(Some(0), 0)], writes := w.writes, received := map[r := {}])
  {
    var s0 := Start();
    var s1 := After(s0, Connect(r, true));
    var s2 := After(s1, CatchUp(r));
    var s3 := After(s2, Acknowledge(r));
    var s4 := After(s3, WriteLands(Touch(r, true, 0)));
    assert Held(s1, r) + s1.arrived.Keys == {};
    assert s4.ledger == map[r := Row(Some(0), 0)];
    var s5 := After(s4, Disconnect(r));
    assert s5.live == map[] && s5 == Start().(ledger := s4.ledger, writes := s5.writes, received := s2.received);
    hide After, Enabled;
    states := [s0];
    RunExtends([s0], Connect(r, true));
    RunExtends([s0] + [s1], CatchUp(r));
    RunExtends([s0] + [s1] + [s2], Acknowledge(r));
    RunExtends([s0] + [s1] + [s2] + [s3], WriteLands(Touch(r, true, 0)));
    RunExtends([s0] + [s1] + [s2] + [s3] + [s4], Disconnect(r));
    states := [s0] + [s1] + [s2] + [s3] + [s4] + [s5];
  }

  // A tombstone of time 0, and nobody to have received it.
  ghost function Unreceived(x: Tomb): World {
    Start().(now := 1, arrived := map[x := 0], deletedAt := map[x := 0])
  }

  lemma TombstoneArrives(x: Tomb) returns (states: seq<World>)
    ensures Run(states) && states[|states| - 1] == Unreceived(x)
  {
    var s0 := Start();
    var s1 := After(s0, Arrive(x));
    assert s1 == s0.(arrived := map[x := 0]);
    var s2 := After(s1, Project(x));
    assert After(s2, Tick(1)) == Unreceived(x);
    hide After, Enabled;
    RunExtends([s0], Arrive(x));
    RunExtends([s0] + [s1], Project(x));
    RunExtends([s0] + [s1] + [s2], Tick(1));
    states := [s0] + [s1] + [s2] + [Unreceived(x)];
  }

  lemma ReplicaCatchesUp(r: Replica, x: Tomb)
    ensures Enabled(Unreceived(x), Connect(r, true))
    ensures var w := After(Unreceived(x), Connect(r, true));
      && Enabled(w, CatchUp(r))
      && var after := After(w, CatchUp(r));
      && after.now == 1 && after.deletedAt == map[x := 0] && after.ledger == map[]
      && after.live == map[r := Connection(true, false, true)]
  {
  }

  /** A tombstone arrives and is projected at time 0, and its replica is connected and caught up at time 1. */
  lemma TombstoneHeld(r: Replica, x: Tomb) returns (states: seq<World>)
    ensures Run(states)
    ensures var w := states[|states| - 1];
      && w.now == 1 && w.deletedAt == map[x := 0] && w.ledger == map[]
      && w.live == map[r := Connection(true, false, true)]
  {
    states := TombstoneArrives(x);
    ReplicaCatchesUp(r, x);
    hide After, Enabled, Run, Unreceived;
    var w := After(Unreceived(x), Connect(r, true));
    RunExtends(states, Connect(r, true));
    states := states + [w];
    RunExtends(states, CatchUp(r));
    states := states + [After(w, CatchUp(r))];
  }

  /** What is left: acknowledge, write, decide, collect. */
  lemma HeldIsCollected(w: World, r: Replica, x: Tomb)
    requires w.now == 1 && w.deletedAt == map[x := 0] && w.ledger == map[]
    requires w.live == map[r := Connection(true, false, true)]
    ensures Enabled(w, Acknowledge(r))
    ensures var w1 := After(w, Acknowledge(r));
      && Enabled(w1, WriteLands(Touch(r, true, 1)))
      && var w2 := After(w1, WriteLands(Touch(r, true, 1)));
      && Enabled(w2, Decide({x}, 1))
      && var w3 := After(w2, Decide({x}, 1));
      && Enabled(w3, Collect)
      && var w4 := After(w3, Collect);
      && x in w4.collected && r in w4.ledger && w4.ledger[r].lastSynced == Some(1)
  {
    var w1 := After(w, Acknowledge(r));
    assert w1.live == map[r := Connection(true, true, true)] && Touch(r, true, 1) in w1.writes;
    var w2 := After(w1, WriteLands(Touch(r, true, 1)));
    assert w2.ledger == map[r := Row(Some(1), 1)];
    assert Eligible(w2, x, 1);
  }

  /** The protocol does collect: a tombstone that the only replica has acknowledged goes. */
  lemma CollectionHappens(r: Replica, x: Tomb) returns (states: seq<World>)
    ensures Run(states) && x in states[|states| - 1].collected
    ensures r in states[|states| - 1].ledger && states[|states| - 1].ledger[r].lastSynced == Some(1)
  {
    states := TombstoneHeld(r, x);
    var w := states[|states| - 1];
    HeldIsCollected(w, r, x);
    hide After, Enabled, Run;
    var w1 := After(w, Acknowledge(r));
    RunExtends(states, Acknowledge(r));
    states := states + [w1];
    var w2 := After(w1, WriteLands(Touch(r, true, 1)));
    RunExtends(states, WriteLands(Touch(r, true, 1)));
    states := states + [w2];
    var w3 := After(w2, Decide({x}, 1));
    RunExtends(states, Decide({x}, 1));
    states := states + [w3];
    RunExtends(states, Collect);
    states := states + [After(w3, Collect)];
  }

  // ---------- the table ----------

  ghost function TouchedAll(ledger: Ledger, touches: seq<Touch>): Ledger {
    if touches == [] then ledger else Touched(TouchedAll(ledger, touches[..|touches| - 1]), touches[|touches| - 1])
  }

  /** One upsert per replica; it counts as synced when any of its sockets does. */
  function Coalesced(ledger: Ledger, groups: map<Replica, bool>, at: Time): Ledger {
    map r | r in ledger.Keys + groups.Keys ::
      if r in groups then Touched(ledger, Touch(r, groups[r], at))[r] else ledger[r]
  }

  lemma CoalescedStep(ledger: Ledger, groups: map<Replica, bool>, at: Time, r: Replica, synced: bool)
    ensures Coalesced(ledger, groups[r := synced || (r in groups && groups[r])], at)
         == Touched(Coalesced(ledger, groups, at), Touch(r, synced, at))
  {
    var left := Coalesced(ledger, groups[r := synced || (r in groups && groups[r])], at);
    var right := Touched(Coalesced(ledger, groups, at), Touch(r, synced, at));
    assert left.Keys == right.Keys;
    assert left[r] == right[r];
    assert forall q :: q in left && q != r ==> left[q] == right[q];
  }

  ghost predicate Touches(touches: seq<Touch>, r: Replica) {
    exists i :: 0 <= i < |touches| && touches[i].replica == r
  }

  ghost predicate Acknowledges(touches: seq<Touch>, r: Replica) {
    exists i :: 0 <= i < |touches| && touches[i].replica == r && touches[i].synced
  }

  /**
   Where a row stands after a batch of touches at one time: seen and acknowledged at
   that time or later when touched, as it was otherwise.
   */
  ghost predicate TouchedRow(ledger: Ledger, after: Ledger, touches: seq<Touch>, at: Time, r: Replica) {
    && (r in after <==> r in ledger || Touches(touches, r))
    && (r in after ==>
          && (Touches(touches, r) ==> after[r].lastSeen >= at)
          && (r in ledger ==> after[r].lastSeen >= ledger[r].lastSeen)
          && (after[r].lastSeen == at || (r in ledger && after[r].lastSeen == ledger[r].lastSeen))
          && (r in ledger && !Touches(touches, r) ==> after[r] == ledger[r])
          && var was := if r in ledger then ledger[r].lastSynced else None;
             after[r].lastSynced == if !Acknowledges(touches, r) || (was.Some? && was.value >= at) then was else Some(at))
  }

  lemma {:induction false} TouchedAllRow(ledger: Ledger, touches: seq<Touch>, at: Time, r: Replica)
    requires forall i :: 0 <= i < |touches| ==> touches[i].at == at
    ensures TouchedRow(ledger, TouchedAll(ledger, touches), touches, at, r)
  {
    if touches != [] {
      var n := |touches| - 1;
      TouchedAllRow(ledger, touches[..n], at, r);
      assert Touches(touches, r) <==> Touches(touches[..n], r) || touches[n].replica == r by {
        if i :| 0 <= i < |touches| && touches[i].replica == r && i < n {
          assert touches[..n][i].replica == r;
        }
      }
      assert Acknowledges(touches, r) <==> Acknowledges(touches[..n], r) || (touches[n].replica == r && touches[n].synced) by {
        if i :| 0 <= i < |touches| && touches[i].replica == r && touches[i].synced && i < n {
          assert touches[..n][i].replica == r;
        }
      }
    }
  }

  predicate NeverAcked(ledger: Ledger, r: Replica) {
    r in ledger && ledger[r].lastSynced.None?
  }

  /** Never-acked rows are ranked by the time last seen, latest first, then by id. */
  predicate RanksBefore(ledger: Ledger, q: Replica, r: Replica)
    requires q in ledger && r in ledger
  {
    ledger[q].lastSeen > ledger[r].lastSeen || (ledger[q].lastSeen == ledger[r].lastSeen && q.n < r.n)
  }

  function AheadOf(ledger: Ledger, r: Replica): set<Replica>
    requires r in ledger
  {
    set q | q in ledger && NeverAcked(ledger, q) && RanksBefore(ledger, q, r)
  }

  /** Rows beyond the cap go; acknowledged rows stay whatever their age. */
  function Capped(ledger: Ledger, cap: nat): Ledger {
    map r | r in ledger && !(NeverAcked(ledger, r) && |AheadOf(ledger, r)| >= cap) :: ledger[r]
  }

  function NeverAckedIn(ledger: Ledger): set<Replica> {
    set r | r in ledger && NeverAcked(ledger, r)
  }

  lemma {:induction false} LastRanked(ledger: Ledger, rs: set<Replica>) returns (last: Replica)
    requires rs != {} && rs <= ledger.Keys
    ensures last in rs && forall q :: q in rs && q != last ==> RanksBefore(ledger, q, last)
    decreases |rs|
  {
    var first :| first in rs;
    var rest := rs - {first};
    last := first;
    if rest == {} {
      assert rs == {first};
    } else {
      var other := LastRanked(ledger, rest);
      last := if RanksBefore(ledger, first, other) then other else first;
      forall q | q in rs && q != last
        ensures RanksBefore(ledger, q, last)
      {
        assert q == first || q in rest;
      }
    }
  }

  /** The cap holds, every acknowledged row survives, and what goes ranks behind what stays. */
  lemma CapHolds(ledger: Ledger, cap: nat)
    ensures var after := Capped(ledger, cap);
      && |NeverAckedIn(after)| <= cap
      && (forall r :: r in ledger && ledger[r].lastSynced.Some? ==> r in after)
      && (forall q, r :: q in ledger && q !in after && NeverAcked(after, r) ==> RanksBefore(ledger, r, q))
      && (forall r :: r in after ==> r in ledger && after[r] == ledger[r])
      && (forall q, r :: q in ledger && q !in after && r in after && after[r].lastSynced.None? ==>
            ledger[r].lastSeen > ledger[q].lastSeen || (ledger[r].lastSeen == ledger[q].lastSeen && r.n < q.n))
      && (after != ledger ==> |NeverAckedIn(after)| == cap)
      && forall r :: r in NeverAckedIn(after) <==> r in after && after[r].lastSynced.None?
  {
    var after := Capped(ledger, cap);
    var kept := NeverAckedIn(after);
    KeptWithinCap(ledger, cap);
    hide AheadOf;
    forall q, r | q in ledger && q !in after && NeverAcked(after, r)
      ensures RanksBefore(ledger, r, q)
    {
      KeptRanksBefore(ledger, cap, q, r);
    }
    forall q, r | q in ledger && q !in after && r in after && after[r].lastSynced.None?
      ensures ledger[r].lastSeen > ledger[q].lastSeen || (ledger[r].lastSeen == ledger[q].lastSeen && r.n < q.n)
    {
      assert NeverAcked(after, r);
    }
    if after != ledger {
      CapIsUsed(ledger, cap);
    }
  }

  lemma KeptWithinCap(ledger: Ledger, cap: nat)
    ensures |NeverAckedIn(Capped(ledger, cap))| <= cap
  {
    var kept := NeverAckedIn(Capped(ledger, cap));
    if kept != {} {
      var last := LastRanked(ledger, kept);
      assert NeverAcked(ledger, last) && |AheadOf(ledger, last)| < cap;
      assert kept - {last} <= AheadOf(ledger, last);
      SubsetSize(kept - {last}, AheadOf(ledger, last));
    }
  }

  lemma {:induction false} FirstRanked(ledger: Ledger, rs: set<Replica>) returns (first: Replica)
    requires rs != {} && rs <= ledger.Keys
    ensures first in rs && forall q :: q in rs && q != first ==> RanksBefore(ledger, first, q)
    decreases |rs|
  {
    var some :| some in rs;
    var rest := rs - {some};
    first := some;
    if rest == {} {
      assert rs == {some};
    } else {
      var other := FirstRanked(ledger, rest);
      first := if RanksBefore(ledger, some, other) then some else other;
      forall q | q in rs && q != first
        ensures RanksBefore(ledger, first, q)
      {
        assert q == some || q in rest;
      }
    }
  }

  lemma NothingGone(ledger: Ledger, after: Ledger)
    requires after.Keys <= ledger.Keys && forall r :: r in after ==> after[r] == ledger[r]
    ensures ledger.Keys - after.Keys == {} ==> after == ledger
  {
    if ledger.Keys - after.Keys == {} {
      assert forall r :: r in ledger ==> r in after || r in ledger.Keys - after.Keys;
    }
  }

  lemma AheadIsNotBehind(ledger: Ledger, q: Replica, r: Replica)
    requires q in ledger && r in ledger && RanksBefore(ledger, r, q)
    ensures r != q && !RanksBefore(ledger, q, r)
  {
  }

  /** A row goes only when the cap is used up by rows that rank before it. */
  lemma CapIsUsed(ledger: Ledger, cap: nat)
    requires Capped(ledger, cap) != ledger
    ensures |NeverAckedIn(Capped(ledger, cap))| >= cap
  {
    var after := Capped(ledger, cap);
    var gone := ledger.Keys - after.Keys;
    NothingGone(ledger, after);
    var first := FirstRanked(ledger, gone);
    forall r | r in AheadOf(ledger, first)
      ensures r in NeverAckedIn(after)
    {
      AheadIsNotBehind(ledger, first, r);
    }
    SubsetSize(AheadOf(ledger, first), NeverAckedIn(after));
  }

  lemma KeptRanksBefore(ledger: Ledger, cap: nat, q: Replica, r: Replica)
    requires q in ledger && q !in Capped(ledger, cap) && NeverAcked(Capped(ledger, cap), r)
    ensures r in ledger && RanksBefore(ledger, r, q)
  {
    assert r in ledger && NeverAcked(ledger, r) && q != r;
    if !RanksBefore(ledger, r, q) {
      assert RanksBefore(ledger, q, r);
      assert AheadOf(ledger, q) <= AheadOf(ledger, r);
      SubsetSize(AheadOf(ledger, q), AheadOf(ledger, r));
      assert false;
    }
  }

  /** A write on its way says nothing untrue, so its landing keeps every acknowledgement true. */
  lemma TouchIsTrue(w: World, touch: Touch)
    requires Inv(w) && touch in w.writes
    ensures Inv(w.(ledger := Touched(w.ledger, touch)))
  {
    var after := w.(ledger := Touched(w.ledger, touch));
    forall r | r in after.ledger && after.ledger[r].lastSynced.Some?
      ensures SyncedPast(w, r, after.ledger[r].lastSynced.value)
    {
    }
    hide Inv, SyncedPast;
    LiveAsBefore(w, after);
    WritesHold(w, after);
  }

  lemma {:induction false} TouchesAreTrue(w: World, touches: seq<Touch>)
    requires Inv(w) && forall i :: 0 <= i < |touches| ==> touches[i] in w.writes
    ensures Inv(w.(ledger := TouchedAll(w.ledger, touches)))
  {
    hide Inv, Touched;
    if touches != [] {
      var n := |touches| - 1;
      TouchesAreTrue(w, touches[..n]);
      TouchIsTrue(w.(ledger := TouchedAll(w.ledger, touches[..n])), touches[n]);
    }
  }

  /** Rows may be forgotten and writes may be done with: what remains is true. */
  lemma FewerIsTrue(w: World, ledger: Ledger, writes: set<Touch>)
    requires Inv(w) && writes <= w.writes
    requires forall r :: r in ledger ==> r in w.ledger && ledger[r] == w.ledger[r]
    ensures Inv(w.(ledger := ledger, writes := writes))
  {
    QuietHolds(w, w.(ledger := ledger, writes := writes));
  }

  /**
   The `replica_sync` table of one document, in the world whose acknowledgements
   it records. As long as it is valid, a tombstone it does not block is held by
   every replica in it.
   */
  class LedgerTable {
    var rows: Ledger
    ghost var world: World

    ghost predicate Valid()
      reads this
    {
      rows == world.ledger && Inv(world)
    }

    constructor ()
      ensures Valid() && rows == map[] && world == Start()
    {
      rows, world := map[], Start();
    }

    /** A step of the world that does not touch the table. */
    ghost method Elsewhere(action: Action)
      requires Valid() && Enabled(world, action) && !action.WriteLands? && !action.Forget?
      modifies this`world
      ensures Valid() && world == After(old(world), action)
    {
      hide Inv;
      StepHolds(world, action);
      world := After(world, action);
    }

    /** Touching a known replica never makes the table block more. */
    method TouchReplica(replica: Replica, synced: bool, at: Time)
      requires Valid() && Touch(replica, synced, at) in world.writes
      modifies this
      ensures Valid() && world == After(old(world), WriteLands(Touch(replica, synced, at)))
      ensures rows == Touched(old(rows), Touch(replica, synced, at))
      ensures rows.Keys == old(rows).Keys + {replica} && forall r :: r in rows && r != replica ==> rows[r] == old(rows)[r]
      ensures rows[replica].lastSeen >= at && (rows[replica].lastSeen == at
        || (replica in old(rows) && rows[replica].lastSeen == old(rows)[replica].lastSeen))
      ensures replica in old(rows) ==> rows[replica].lastSeen >= old(rows)[replica].lastSeen
      ensures replica !in old(rows) ==> rows[replica].lastSynced == if synced then Some(at) else None
      ensures replica in old(rows) ==>
        var was := old(rows)[replica].lastSynced;
        rows[replica].lastSynced == if !synced || (was.Some? && was.value >= at) then was else Some(at)
      ensures forall d :: Blocks(rows, d) && replica in old(rows) ==> Blocks(old(rows), d)
    {
      hide Inv;
      StepHolds(world, WriteLands(Touch(replica, synced, at)));
      var mark := if synced then Some(at) else None;
      var row := Row(mark, at);
      if replica in rows {
        row := Row(Latest(rows[replica].lastSynced, mark), Later(rows[replica].lastSeen, at));
      }
      rows := rows[replica := row];
      world := After(world, WriteLands(Touch(replica, synced, at)));
    }

    /** One heartbeat: the same as touching each socket's replica in turn. */
    method TouchReplicasBatch(touches: seq<Touch>, at: Time)
      requires Valid() && forall i :: 0 <= i < |touches| ==> touches[i].at == at && touches[i] in world.writes
      modifies this
      ensures Valid() && rows == TouchedAll(old(rows), touches)
      ensures forall r :: TouchedRow(old(rows), rows, touches, at, r)
      ensures world == old(world).(ledger := rows, writes := old(world).writes - Members(touches))
    {
      hide Inv, Touched;
      var groups: map<Replica, bool> := map[];
      for i := 0 to |touches|
        invariant Coalesced(rows, groups, at) == TouchedAll(rows, touches[..i])
        invariant rows == old(rows) && world == old(world) && Valid()
      {
        var touch := touches[i];
        CoalescedStep(rows, groups, at, touch.replica, touch.synced);
        assert touches[..i + 1][..i] == touches[..i];
        groups := groups[touch.replica := touch.synced || (touch.replica in groups && groups[touch.replica])];
      }
      assert touches[..|touches|] == touches;
      TouchesAreTrue(world, touches);
      rows := Coalesced(rows, groups, at);
      FewerIsTrue(world.(ledger := rows), rows, world.writes - Members(touches));
      world := world.(ledger := rows, writes := world.writes - Members(touches));
      forall r
        ensures TouchedRow(old(rows), rows, touches, at, r)
      {
        TouchedAllRow(old(rows), touches, at, r);
      }
    }

    /** Rows seen since the limit stay as they are, and from now on they alone decide what is blocked. */
    method PruneStaleReplicas(olderThan: Time)
      requires Valid()
      modifies this
      ensures Valid() && world == old(world).(ledger := rows)
      ensures forall r :: r in rows <==> r in old(rows) && old(rows)[r].lastSeen >= olderThan
      ensures forall r :: r in rows ==> rows[r] == old(rows)[r]
      ensures forall d :: Blocks(rows, d) <==>
        exists r :: r in old(rows) && old(rows)[r].lastSeen >= olderThan && !SyncedAfter(old(rows)[r], d)
    {
      hide Inv;
      rows := map r | r in rows && rows[r].lastSeen >= olderThan :: rows[r];
      FewerIsTrue(world, rows, world.writes);
      world := world.(ledger := rows);
    }

    method PruneNeverAckedOverflow(maxPerDocument: nat)
      requires Valid()
      modifies this
      ensures Valid() && world == old(world).(ledger := rows)
      ensures rows == Capped(old(rows), maxPerDocument) && |NeverAckedIn(rows)| <= maxPerDocument
    {
      hide Inv;
      CapHolds(rows, maxPerDocument);
      rows := Capped(rows, maxPerDocument);
      FewerIsTrue(world, rows, world.writes);
      world := world.(ledger := rows);
    }

    /** The gate before a collection: what passes has reached every replica in the table. */
    method MayCollect(ghost x: Tomb, deletedAt: Time, cutoff: Time) returns (ok: bool)
      requires Valid() && x in world.deletedAt && world.deletedAt[x] == deletedAt
      ensures ok <==> Eligible(world, x, cutoff)
      ensures ok <==>
        && deletedAt < cutoff
        && forall r :: r in rows ==> rows[r].lastSynced.Some? && rows[r].lastSynced.value > deletedAt
      ensures ok ==> forall r :: r in rows ==> x in Held(world, r)
    {
      ok := deletedAt < cutoff && !Blocks(rows, deletedAt);
      if ok {
        forall r | r in rows
          ensures x in Held(world, r)
        {
          EligibleIsHeld(world, x, cutoff, r);
        }
      }
    }
  }
}
