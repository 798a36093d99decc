/**
 The duplicate-tab duel: tabs of one document announce the replica id they hold on
 a broadcast channel; a tab that hears its own id announced answers, and a tab
 that is answered takes a fresh id. Messages arrive in any order and at any time.
 */
module ReplicaDuel {
  import opened Collections

  datatype TabId = TabId(n: nat)

  datatype ReplicaId = ReplicaId(n: nat)

  datatype Message = Claim(id: ReplicaId) | Taken(id: ReplicaId)

  // One copy of a posted message, on its way to one tab.
  datatype Delivery = Delivery(to: TabId, message: Message)

  /**
   `tabs` lists the live tabs; `used` are the ids minted so far, and `remints`
   counts how often a tab had to change its id.
   */
  datatype World = World(tabs: seq<TabId>, held: map<TabId, ReplicaId>, mail: seq<Delivery>,
                         used: set<ReplicaId>, remints: map<TabId, nat>)

  // A tab opens with an id from its session storage, which may be a copy, or with a fresh one.
  datatype Action =
    | Open(t: TabId, id: ReplicaId)
    | Close(t: TabId)
    | Deliver(i: nat, minted: ReplicaId)

  function Start(): World {
    World([], map[], [], {}, map[])
  }

  // ---------- one tab ----------

  /** What a tab holding `id` does about a message: its id afterwards and what it posts. */
  function Handle(id: ReplicaId, message: Message, minted: ReplicaId): (ReplicaId, Option<Message>) {
    if message == Claim(id) then (id, Some(Taken(id)))
    else if message == Taken(id) then (minted, Some(Claim(minted)))
    else (id, None)
  }

  /** The id a tab announced last. */
  function LastClaim(posted: seq<Message>): Option<ReplicaId> {
    if posted == [] then None
    else if posted[|posted| - 1].Claim? then Some(posted[|posted| - 1].id)
    else LastClaim(posted[..|posted| - 1])
  }

  class Tab {
    var id: ReplicaId
    var stored: ReplicaId
    var posted: seq<Message>

    /** What the tab holds is what it stores and what it announced last. */
    ghost predicate Valid()
      reads this
    {
      id == stored && LastClaim(posted) == Some(id)
    }

    /** Read the stored id and announce it. */
    constructor (stored: ReplicaId)
      ensures Valid() && id == stored && posted == [Claim(stored)]
    {
      id, this.stored, posted := stored, stored, [Claim(stored)];
    }

    /**
     A tab gives its id up exactly when told that it is taken, announces the new
     one at once, and answers for its own id only.
     */
    method OnMessage(message: Message, minted: ReplicaId)
      requires Valid() && minted != id
      modifies this
      ensures Valid()
      ensures id == (if message == Taken(old(id)) then minted else old(id))
      ensures id != old(id) ==> posted == old(posted) + [Claim(id)]
      ensures id == old(id) ==> posted == if message == Claim(id) then old(posted) + [Taken(id)] else old(posted)
      ensures id == Handle(old(id), message, minted).0
    {
      if message == Claim(id) {
        posted := posted + [Taken(id)];
        assert posted[..|posted| - 1] == old(posted);
      } else if message == Taken(id) {
        id := minted;
        stored := id;
        posted := posted + [Claim(id)];
      }
    }
  }

  /** The original hears the duplicate, the duplicate hears the answer, the original hears the new claim. */
  method Duel(original: Tab, duplicate: Tab, minted: ReplicaId)
    requires original != duplicate && original.Valid() && duplicate.Valid()
    requires original.id == duplicate.id != minted
    modifies original, duplicate
    ensures original.Valid() && duplicate.Valid()
    ensures original.id == old(original.id) != minted && duplicate.id == minted
    ensures original.posted == old(original.posted) + [Taken(original.id)]
    ensures duplicate.posted == old(duplicate.posted) + [Claim(minted)]
  {
    original.OnMessage(Claim(duplicate.id), minted);
    duplicate.OnMessage(original.posted[|original.posted| - 1], minted);
    original.OnMessage(duplicate.posted[|duplicate.posted| - 1], minted);
  }

  // ---------- all tabs ----------

  /** One copy for every other live tab. */
  function Copies(tabs: seq<TabId>, from: TabId, message: Message): (mail: seq<Delivery>)
    ensures forall d :: d in mail <==> d.message == message && d.to in tabs && d.to != from
    ensures |mail| <= |tabs|
    ensures from in tabs ==> |mail| < |tabs|
  {
    if tabs == [] then []
    else
      var rest := Copies(tabs[1..], from, message);
      if tabs[0] == from then rest else [Delivery(tabs[0], message)] + rest
  }

  function Removed<T>(s: seq<T>, i: nat): seq<T>
    requires i < |s|
  {
    s[..i] + s[i + 1..]
  }

  ghost predicate Enabled(w: World, action: Action) {
    match action
    case Open(t, id) => t !in w.tabs
    case Close(t) => t in w.tabs
    case Deliver(i, minted) => i < |w.mail| && minted !in w.used
  }

  function Delivered(w: World, i: nat, minted: ReplicaId): World
    requires i < |w.mail|
  {
    var d := w.mail[i];
    var rest := Removed(w.mail, i);
    if d.to !in w.tabs || d.to !in w.held then w.(mail := rest)
    else
      var (id, answer) := Handle(w.held[d.to], d.message, minted);
      var posts := if answer.Some? then Copies(w.tabs, d.to, answer.value) else [];
      if id == w.held[d.to] then w.(mail := rest + posts)
      else w.(held := w.held[d.to := id], mail := rest + posts, used := w.used + {id},
              remints := w.remints[d.to := (if d.to in w.remints then w.remints[d.to] else 0) + 1])
  }

  function Others(tabs: seq<TabId>, t: TabId): (rest: seq<TabId>)
    ensures forall u :: u in rest <==> u in tabs && u != t
  {
    if tabs == [] then [] else if tabs[0] == t then Others(tabs[1..], t) else [tabs[0]] + Others(tabs[1..], t)
  }

  /** The letters that a closed channel does not take along. */
  function NotTo(mail: seq<Delivery>, t: TabId): (rest: seq<Delivery>)
    ensures forall d :: d in rest <==> d in mail && d.to != t
  {
    if mail == [] then []
    else
      var n := |mail| - 1;
      if mail[n].to == t then NotTo(mail[..n], t) else NotTo(mail[..n], t) + [mail[n]]
  }

  ghost function After(w: World, action: Action): World
    requires Enabled(w, action)
  {
    match action
    case Open(t, id) =>
      w.(tabs := w.tabs + [t], held := w.held[t := id], mail := w.mail + Copies(w.tabs, t, Claim(id)),
         used := w.used + {id}, remints := w.remints[t := 0])
    case Close(t) => w.(tabs := Others(w.tabs, t), mail := NotTo(w.mail, t))
    case Deliver(i, minted) => Delivered(w, i, minted)
  }

  ghost predicate Next(a: World, b: World) {
    exists action :: Enabled(a, action) && b == After(a, action)
  }

  ghost predicate Run(states: seq<World>) {
    && |states| > 0 && states[0] == Start()
    && forall i :: 0 < i < |states| ==> Next(states[i - 1], states[i])
  }

  // ---------- no shared id goes unnoticed ----------

  ghost predicate InMail(w: World, to: TabId, message: Message) {
    Delivery(to, message) in w.mail
  }

  /** A message about `x` is on its way to `t`. */
  ghost predicate Warned(w: World, t: TabId, x: ReplicaId) {
    InMail(w, t, Claim(x)) || InMail(w, t, Taken(x))
  }

  ghost predicate Share(w: World, t: TabId, u: TabId)
    ensures Share(w, t, u) ==> t in w.held && u in w.held
  {
    t in w.held && u in w.held && w.held[t] == w.held[u]
  }

  /** Whenever two live tabs hold one id, a message about it is on its way to one of them. */
  ghost predicate SharingIsNoticed(w: World) {
    forall t, u :: t in w.tabs && u in w.tabs && t != u && Share(w, t, u) ==>
      Warned(w, t, w.held[t]) || Warned(w, u, w.held[t])
  }

  /** Live tabs hold used ids and have a count; messages speak of used ids and go to live tabs. */
  ghost predicate Known(w: World) {
    && (forall t :: t in w.tabs ==> t in w.held && w.held[t] in w.used && t in w.remints)
    && forall d :: d in w.mail ==> d.message.id in w.used && d.to in w.tabs
  }

  ghost predicate Inv(w: World)
  {
    Known(w) && SharingIsNoticed(w)
  }

  lemma RemovedMembers(mail: seq<Delivery>, i: nat)
    requires i < |mail|
    ensures forall d :: d in Removed(mail, i) ==> d in mail
    ensures forall d :: d in mail && d != mail[i] ==> d in Removed(mail, i)
  {
    forall d | d in mail && d != mail[i]
      ensures d in Removed(mail, i)
    {
      var k :| 0 <= k < |mail| && mail[k] == d;
      assert if k < i then Removed(mail, i)[k] == d else Removed(mail, i)[k - 1] == d;
    }
  }

  lemma OpenHolds(w: World, t: TabId, id: ReplicaId)
    requires Inv(w) && t !in w.tabs
    ensures Inv(After(w, Open(t, id)))
  {
    KnownStep(w, Open(t, id));
    hide Known;
    var after := After(w, Open(t, id));
    forall a, b | a in after.tabs && b in after.tabs && a != b && Share(after, a, b)
      ensures Warned(after, a, after.held[a]) || Warned(after, b, after.held[a])
    {
      OpenedPairIsWarned(w, t, id, a, b);
    }
  }

  lemma OpenedPairIsWarned(w: World, t: TabId, id: ReplicaId, a: TabId, b: TabId)
    requires SharingIsNoticed(w) && t !in w.tabs && a != b
    requires var after := After(w, Open(t, id)); a in after.tabs && b in after.tabs && Share(after, a, b)
    ensures var after := After(w, Open(t, id)); Warned(after, a, after.held[a]) || Warned(after, b, after.held[a])
  {
    if a != t && b != t {
      assert Share(w, a, b);
    } else {
      var other := if a == t then b else a;
      assert Delivery(other, Claim(id)) in Copies(w.tabs, t, Claim(id));
    }
  }

  lemma CloseHolds(w: World, t: TabId)
    requires Inv(w) && t in w.tabs
    ensures Inv(After(w, Close(t)))
  {
    var after := After(w, Close(t));
    forall u, x
      ensures u != t ==> Warned(w, u, x) == Warned(after, u, x)
    {
    }
  }

  lemma DeliverHolds(w: World, i: nat, minted: ReplicaId)
    requires Inv(w) && i < |w.mail| && minted !in w.used
    ensures Inv(Delivered(w, i, minted))
  {
    var after := Delivered(w, i, minted);
    var d := w.mail[i];
    RemovedMembers(w.mail, i);
    assert d in w.mail;
    assert Known(after);
    forall t, u | t in after.tabs && u in after.tabs && t != u && Share(after, t, u)
      ensures Warned(after, t, after.held[t]) || Warned(after, u, after.held[t])
    {
      PairIsWarned(w, i, minted, t, u);
    }
  }

  lemma PairIsWarned(w: World, i: nat, minted: ReplicaId, t: TabId, u: TabId)
    requires Inv(w) && i < |w.mail| && minted !in w.used
    requires t in w.tabs && u in w.tabs && t != u
    requires Share(Delivered(w, i, minted), t, u)
    ensures var after := Delivered(w, i, minted);
      Warned(after, t, after.held[t]) || Warned(after, u, after.held[t])
  {
    var after := Delivered(w, i, minted);
    var d := w.mail[i];
    RemovedMembers(w.mail, i);
    assert d in w.mail;
    assert after.held[t] == w.held[t] && after.held[u] == w.held[u] && Share(w, t, u);
    var x := w.held[t];
    if d.to == t || d.to == u {
      if d.message == Claim(x) {
        var other := if d.to == t then u else t;
        assert Delivery(other, Taken(x)) in Copies(w.tabs, d.to, Taken(x));
        assert InMail(after, other, Taken(x));
      } else {
        assert d.message != Taken(x);
        StillWarned(w, after, i, t, u, x);
      }
    } else {
      StillWarned(w, after, i, t, u, x);
    }
  }

  lemma StillWarned(w: World, after: World, i: nat, t: TabId, u: TabId, x: ReplicaId)
    requires i < |w.mail| && forall d :: d in w.mail && d != w.mail[i] ==> d in after.mail
    requires Warned(w, t, x) || Warned(w, u, x)
    requires w.mail[i].message.id != x || (w.mail[i].to != t && w.mail[i].to != u)
    ensures Warned(after, t, x) || Warned(after, u, x)
  {
  }

  lemma StepHolds(w: World, action: Action)
    requires Inv(w) && Enabled(w, action)
    ensures Inv(After(w, action))
  {
    hide Inv;
    match action
    case Open(t, id) => OpenHolds(w, t, id);
    case Close(t) => CloseHolds(w, t);
    case Deliver(i, minted) => DeliverHolds(w, i, minted);
  }

  lemma {:induction false} RunHolds(states: seq<World>, i: nat)
    requires Run(states) && i < |states|
    ensures Inv(states[i])
  {
    hide Enabled, After;
    if i > 0 {
      RunHolds(states, i - 1);
      assert Next(states[i - 1], states[i]);
      var action :| Enabled(states[i - 1], action) && states[i] == After(states[i - 1], action);
      StepHolds(states[i - 1], action);
    }
  }

  /** Once nothing is on its way to a live tab, no two live tabs share an id. */
  lemma QuietTabsDiffer(states: seq<World>, i: nat, t: TabId, u: TabId)
    requires Run(states) && i < |states|
    requires forall d :: d in states[i].mail ==> d.to !in states[i].tabs
    requires t in states[i].tabs && u in states[i].tabs && t != u
    ensures t in states[i].held && u in states[i].held && states[i].held[t] != states[i].held[u]
  {
    RunHolds(states, i);
  }

  // ---------- who can lose its id ----------

  /** `t` is told that its id is taken, or will be by a tab that holds it too. */
  ghost predicate Threatened(w: World, t: TabId) {
    && t in w.tabs && t in w.held
    && (InMail(w, t, Taken(w.held[t]))
        || exists u :: u in w.tabs && u != t && Share(w, u, t) && InMail(w, u, Claim(w.held[t])))
  }

  ghost predicate OneDelivery(a: World, b: World) {
    exists i, minted :: Enabled(a, Deliver(i, minted)) && b == Delivered(a, i, minted)
  }

  ghost predicate Deliveries(path: seq<World>) {
    |path| > 0 && forall i :: 0 < i < |path| ==> OneDelivery(path[i - 1], path[i])
  }

  lemma KnownStep(w: World, action: Action)
    requires Known(w) && Enabled(w, action)
    ensures Known(After(w, action))
  {
    if action.Deliver? {
      RemovedMembers(w.mail, action.i);
      assert w.mail[action.i] in w.mail;
    }
  }

  /** A delivery takes no id from a tab that is not threatened, and does not begin to threaten it. */
  lemma UnthreatenedDelivery(w: World, i: nat, minted: ReplicaId, t: TabId)
    requires Known(w) && Enabled(w, Deliver(i, minted)) && t in w.tabs && !Threatened(w, t)
    ensures var after := Delivered(w, i, minted);
      && after.tabs == w.tabs && after.held[t] == w.held[t] && after.remints[t] == w.remints[t]
      && !Threatened(after, t)
  {
    RemovedMembers(w.mail, i);
    assert w.mail[i] in w.mail;
    var after := Delivered(w, i, minted);
    if u :| u in w.tabs && u != t && Share(after, u, t) && InMail(after, u, Claim(w.held[t])) {
      assert InMail(w, u, Claim(w.held[t]));
      assert Share(w, u, t);
      assert false;
    }
  }

  lemma {:induction false} UnthreatenedKeepsId(path: seq<World>, i: nat, t: TabId)
    requires Deliveries(path) && i < |path| && Known(path[0]) && t in path[0].tabs && !Threatened(path[0], t)
    ensures Known(path[i]) && t in path[i].tabs && !Threatened(path[i], t)
    ensures path[i].held[t] == path[0].held[t] && path[i].remints[t] == path[0].remints[t]
  {
    hide Threatened, Delivered, Known;
    if i > 0 {
      UnthreatenedKeepsId(path, i - 1, t);
      assert OneDelivery(path[i - 1], path[i]);
      var k, minted :| Enabled(path[i - 1], Deliver(k, minted)) && path[i] == Delivered(path[i - 1], k, minted);
      UnthreatenedDelivery(path[i - 1], k, minted, t);
      KnownStep(path[i - 1], Deliver(k, minted));
      KnownHolds(path[i], t);
    } else {
      KnownHolds(path[0], t);
    }
  }

  lemma KnownHolds(w: World, t: TabId)
    requires Known(w) && t in w.tabs
    ensures t in w.held && t in w.remints && w.held[t] in w.used
  {
  }

  lemma {:induction false} FreshId(used: set<ReplicaId>) returns (minted: ReplicaId)
    ensures minted !in used && forall id :: id in used ==> id.n < minted.n
    decreases |used|
  {
    if used == {} {
      minted := ReplicaId(0);
    } else {
      var id :| id in used;
      var other := FreshId(used - {id});
      minted := ReplicaId(if id.n < other.n then other.n else id.n + 1);
      forall x | x in used
        ensures x.n < minted.n
      {
        assert x == id || x in used - {id};
      }
    }
  }

  /** Told that its id is taken, a tab takes a fresh one. */
  lemma ToldLoses(w: World, t: TabId) returns (after: World)
    requires Known(w) && t in w.tabs && InMail(w, t, Taken(w.held[t]))
    ensures OneDelivery(w, after) && t in after.held && after.held[t] != w.held[t]
    ensures t in after.remints && after.remints[t] == w.remints[t] + 1
  {
    var i :| 0 <= i < |w.mail| && w.mail[i] == Delivery(t, Taken(w.held[t]));
    var minted := FreshId(w.used);
    after := Delivered(w, i, minted);
    assert Enabled(w, Deliver(i, minted));
  }

  /** Who holds the id too answers the claim it hears. */
  lemma HolderAnswers(w: World, t: TabId, u: TabId) returns (after: World)
    requires Known(w) && t in w.tabs && u in w.tabs && u != t && Share(w, u, t) && InMail(w, u, Claim(w.held[t]))
    ensures OneDelivery(w, after) && Known(after) && t in after.tabs && after.held[t] == w.held[t]
    ensures after.remints == w.remints && InMail(after, t, Taken(w.held[t]))
  {
    var i :| 0 <= i < |w.mail| && w.mail[i] == Delivery(u, Claim(w.held[t]));
    var minted := FreshId(w.used);
    after := Delivered(w, i, minted);
    assert Enabled(w, Deliver(i, minted));
    KnownStep(w, Deliver(i, minted));
    assert Delivery(t, Taken(w.held[t])) in Copies(w.tabs, u, Taken(w.held[t]));
  }

  /** One or two deliveries take the id from a threatened tab. */
  lemma ThreatenedLoses(w: World, t: TabId) returns (path: seq<World>)
    requires Known(w) && Threatened(w, t)
    ensures Deliveries(path) && path[0] == w && |path| <= 3 && t in path[|path| - 1].held
    ensures path[|path| - 1].held[t] != w.held[t]
    ensures t in path[|path| - 1].remints && path[|path| - 1].remints[t] == w.remints[t] + 1
  {
    hide OneDelivery;
    if InMail(w, t, Taken(w.held[t])) {
      var after := ToldLoses(w, t);
      path := [w, after];
    } else {
      var u :| u in w.tabs && u != t && Share(w, u, t) && InMail(w, u, Claim(w.held[t]));
      var told := HolderAnswers(w, t, u);
      var after := ToldLoses(told, t);
      path := [w, told, after];
    }
  }

  /** Some deliveries, and nothing else, make the tab change its id. */
  ghost predicate CanLose(w: World, t: TabId) {
    exists path: seq<World> :: Deliveries(path) && path[0] == w && ChangedAt(w, path[|path| - 1], t)
  }

  ghost predicate ChangedAt(w: World, after: World, t: TabId) {
    t in w.held && t in after.held && after.held[t] != w.held[t]
  }

  /** The threatened tabs are exactly those that deliveries can take the id from. */
  lemma LosesExactlyWhenThreatened(w: World, t: TabId)
    requires Known(w) && t in w.tabs
    ensures CanLose(w, t) <==> Threatened(w, t)
  {
    hide OneDelivery, Threatened, Known;
    KnownHolds(w, t);
    if Threatened(w, t) {
      var path := ThreatenedLoses(w, t);
      assert ChangedAt(w, path[|path| - 1], t);
    } else if CanLose(w, t) {
      var path: seq<World> :| Deliveries(path) && path[0] == w && ChangedAt(w, path[|path| - 1], t);
      UnthreatenedKeepsId(path, |path| - 1, t);
      assert false;
    }
  }

  // ---------- at most one change per tab ----------

  ghost predicate AtMostOnce(w: World) {
    forall t :: t in w.remints ==> w.remints[t] <= 1
  }

  ghost predicate Changed(w: World, t: TabId) {
    t in w.remints && w.remints[t] == 1
  }

  /** No tab has changed its id twice, and none that has changed it is threatened. */
  ghost predicate Promise(w: World) {
    Known(w) && AtMostOnce(w) && forall t :: t in w.tabs && Changed(w, t) ==> !Threatened(w, t)
  }

  /** Whatever is delivered from here on, no tab changes its id a second time. */
  ghost predicate Safe(w: World) {
    forall path: seq<World> :: Deliveries(path) && path[0] == w ==> AtMostOnce(path[|path| - 1])
  }

  lemma DeliveryKeepsPromise(w: World, i: nat, minted: ReplicaId)
    requires Promise(w) && Enabled(w, Deliver(i, minted))
    ensures Promise(Delivered(w, i, minted))
  {
    var after := Delivered(w, i, minted);
    KnownStep(w, Deliver(i, minted));
    var d := w.mail[i];
    assert d in w.mail;
    if Renews(w, i) {
      assert Threatened(w, d.to);
      assert !Changed(w, d.to);
      RenewedIsUnthreatened(w, i, minted);
    }
    forall t | t in after.tabs && Changed(after, t)
      ensures !Threatened(after, t)
    {
      if Changed(w, t) {
        UnthreatenedDelivery(w, i, minted, t);
      }
    }
  }

  /** Who has just taken a fresh id holds it alone. */
  lemma RenewedIsUnthreatened(w: World, i: nat, minted: ReplicaId)
    requires Known(w) && Enabled(w, Deliver(i, minted)) && Renews(w, i)
    ensures !Threatened(Delivered(w, i, minted), w.mail[i].to)
  {
    RemovedMembers(w.mail, i);
    assert w.mail[i] in w.mail;
  }

  lemma CloseKeepsPromise(w: World, t: TabId)
    requires Promise(w) && t in w.tabs
    ensures Promise(After(w, Close(t)))
  {
    var after := After(w, Close(t));
    KnownStep(w, Close(t));
    forall u | u in after.tabs && Threatened(after, u)
      ensures Threatened(w, u)
    {
    }
  }

  /** `x` is held by two live tabs, one of which has changed its id already. */
  ghost predicate Contested(w: World, x: ReplicaId) {
    exists t, u :: t in w.tabs && u in w.tabs && t != u && Share(w, t, u) && w.held[t] == x && Changed(w, t)
  }

  /** Opening under `x` threatens exactly the tabs that hold it together with another one. */
  lemma OpeningThreatens(w: World, d: TabId, x: ReplicaId, t: TabId)
    requires Known(w) && d !in w.tabs && t in w.tabs && !Threatened(w, t)
    ensures Threatened(After(w, Open(d, x)), t) <==>
      w.held[t] == x && exists u :: u in w.tabs && u != t && Share(w, u, t)
  {
    var after := After(w, Open(d, x));
    if u :| w.held[t] == x && u in w.tabs && u != t && Share(w, u, t) {
      assert Delivery(u, Claim(x)) in Copies(w.tabs, d, Claim(x));
      assert Share(after, u, t) && InMail(after, u, Claim(x));
    } else if Threatened(after, t) {
      assert !InMail(after, t, Taken(after.held[t]));
      var u :| u in after.tabs && u != t && Share(after, u, t) && InMail(after, u, Claim(after.held[t]));
      assert u != d;
      assert Share(w, u, t);
      assert InMail(w, u, Claim(w.held[t]));
      assert false;
    }
  }

  /** An opening keeps the promise exactly when its id is not contested. */
  lemma OpeningKeepsPromise(w: World, d: TabId, x: ReplicaId)
    requires Promise(w) && d !in w.tabs
    ensures Promise(After(w, Open(d, x))) <==> !Contested(w, x)
  {
    hide Threatened;
    var after := After(w, Open(d, x));
    KnownStep(w, Open(d, x));
    if Contested(w, x) {
      var t, u :| t in w.tabs && u in w.tabs && t != u && Share(w, t, u) && w.held[t] == x && Changed(w, t);
      assert Share(w, u, t);
      OpeningThreatens(w, d, x, t);
      assert Changed(after, t);
    } else {
      forall t | t in after.tabs && Changed(after, t)
        ensures !Threatened(after, t)
      {
        assert t != d;
        assert Changed(w, t);
        OpeningThreatens(w, d, x, t);
        if w.held[t] == x {
          NotContested(w, x, t);
        }
      }
    }
  }

  lemma NotContested(w: World, x: ReplicaId, t: TabId)
    requires !Contested(w, x) && t in w.tabs && t in w.held && Changed(w, t) && w.held[t] == x
    ensures forall u :: u in w.tabs && u != t ==> !Share(w, u, t)
  {
    forall u | u in w.tabs && u != t
      ensures Share(w, u, t) == Share(w, t, u)
    {
    }
  }

  lemma {:induction false} PathKeepsPromise(path: seq<World>, i: nat)
    requires Deliveries(path) && i < |path| && Promise(path[0])
    ensures Promise(path[i])
  {
    hide Promise, Delivered;
    if i > 0 {
      PathKeepsPromise(path, i - 1);
      assert OneDelivery(path[i - 1], path[i]);
      var k, minted :| Enabled(path[i - 1], Deliver(k, minted)) && path[i] == Delivered(path[i - 1], k, minted);
      DeliveryKeepsPromise(path[i - 1], k, minted);
    }
  }

  /** The promise is neither more nor less than safety under every further delivery. */
  lemma PromiseMeansSafe(w: World)
    requires Known(w)
    ensures Promise(w) <==> Safe(w)
  {
    hide OneDelivery, Threatened, Known;
    if Promise(w) {
      forall path: seq<World> | Deliveries(path) && path[0] == w
        ensures AtMostOnce(path[|path| - 1])
      {
        PathKeepsPromise(path, |path| - 1);
      }
    } else if Safe(w) {
      Nowhere(w);
      var t :| t in w.tabs && Changed(w, t) && Threatened(w, t);
      var path := ThreatenedLoses(w, t);
      assert false;
    }
  }

  lemma Nowhere(w: World)
    requires Safe(w)
    ensures AtMostOnce(w)
  {
    assert Deliveries([w]) && [w][|[w]| - 1] == w;
  }

  // ---------- whole runs ----------

  /** Any actions from a world in which nobody has changed its id yet, counting from there. */
  ghost predicate Steps(states: seq<World>, actions: seq<Action>) {
    && |states| == |actions| + 1 && Known(states[0])
    && forall i :: 0 <= i < |actions| ==> Enabled(states[i], actions[i]) && states[i + 1] == After(states[i], actions[i])
  }

  ghost predicate NobodyChanged(w: World) {
    forall t :: t in w.remints ==> w.remints[t] == 0
  }

  /** No tab opens under an id that two live tabs hold, one of which has changed its id already. */
  ghost predicate Careful(w: World, action: Action) {
    action.Open? ==> !Contested(w, action.id)
  }

  lemma PromiseStep(w: World, action: Action)
    requires Promise(w) && Enabled(w, action)
    ensures Promise(After(w, action)) <==> Careful(w, action)
  {
    hide Promise, Contested;
    match action
    case Open(d, x) =>
      OpeningKeepsPromise(w, d, x);
    case Close(t) => CloseKeepsPromise(w, t);
    case Deliver(i, minted) => DeliveryKeepsPromise(w, i, minted);
  }

  lemma {:induction false} StepsKnown(states: seq<World>, actions: seq<Action>, i: nat)
    requires Steps(states, actions) && i < |states|
    ensures Known(states[i])
  {
    hide Known, Enabled, After;
    if i > 0 {
      StepsKnown(states, actions, i - 1);
      KnownStep(states[i - 1], actions[i - 1]);
    }
  }

  lemma {:induction false} CarefulKeepsPromise(states: seq<World>, actions: seq<Action>, i: nat)
    requires Steps(states, actions) && i < |states| && NobodyChanged(states[0])
    requires forall j :: 0 <= j < i ==> Careful(states[j], actions[j])
    ensures Promise(states[i])
  {
    hide Threatened, Enabled, After, Careful;
    if i > 0 {
      hide Promise, Known;
      CarefulKeepsPromise(states, actions, i - 1);
      PromiseStep(states[i - 1], actions[i - 1]);
    }
  }

  /**
   Over a run in which every opening is careful, every tab changes its id at most
   once in total.
   */
  lemma RenewsAtMostOnce(states: seq<World>, actions: seq<Action>, i: nat, t: TabId)
    requires Steps(states, actions) && i < |states| && NobodyChanged(states[0])
    requires forall j :: 0 <= j < i ==> Careful(states[j], actions[j])
    requires t in states[i].tabs
    ensures t in states[i].remints && states[i].remints[t] <= 1
  {
    hide Threatened, Enabled, After, Careful;
    CarefulKeepsPromise(states, actions, i);
  }

  /**
   And only then: up to any moment of a run no delivery could make a tab change its
   id a second time exactly when every opening so far was careful.
   */
  lemma SafeExactlyWhenCareful(states: seq<World>, actions: seq<Action>, i: nat)
    requires Steps(states, actions) && i < |states| && NobodyChanged(states[0])
    ensures (forall j :: 0 <= j <= i ==> Safe(states[j])) <==> (forall j :: 0 <= j < i ==> Careful(states[j], actions[j]))
  {
    hide Threatened, Enabled, After, Careful, Safe, Promise, Known;
    forall j | 0 <= j <= i
      ensures Promise(states[j]) <==> Safe(states[j])
    {
      StepsKnown(states, actions, j);
      PromiseMeansSafe(states[j]);
    }
    if forall j :: 0 <= j < i ==> Careful(states[j], actions[j]) {
      forall j | 0 <= j <= i
        ensures Promise(states[j])
      {
        CarefulKeepsPromise(states, actions, j);
      }
    } else {
      var j :| 0 <= j < i && !Careful(states[j], actions[j]);
      if Promise(states[j]) {
        PromiseStep(states[j], actions[j]);
        assert !Promise(states[j + 1]);
      }
    }
  }

  /** An opening under the id of `t` while another live tab holds it too. */
  ghost predicate CopiesShared(w: World, action: Action, t: TabId)
    requires t in w.held
  {
    action.Open? && action.id == w.held[t] && exists u :: u in w.tabs && u != t && Share(w, u, t)
  }

  lemma UnthreatenedStep(w: World, action: Action, t: TabId)
    requires Known(w) && Enabled(w, action) && t in w.tabs && !Threatened(w, t) && action != Close(t)
    requires !CopiesShared(w, action, t)
    ensures var after := After(w, action);
      && t in after.tabs && !Threatened(after, t)
      && t in after.held && after.held[t] == w.held[t]
      && t in after.remints && t in w.remints && after.remints[t] == w.remints[t]
  {
    match action
    case Open(d, x) => OpeningThreatens(w, d, x, t);
    case Close(_) =>
    case Deliver(i, minted) => UnthreatenedDelivery(w, i, minted, t);
  }

  /** A tab that opens under an unused id is not threatened. */
  lemma OpensUnthreatened(w: World, t: TabId, id: ReplicaId)
    requires Known(w) && t !in w.tabs && id !in w.used
    ensures !Threatened(After(w, Open(t, id)), t)
  {
  }

  /**
   A tab that is not threatened, such as one opened under an unused id, keeps its id
   for as long as nobody opens under it while it is shared.
   */
  lemma {:induction false} KeepsIdWhileUnshared(states: seq<World>, actions: seq<Action>, i: nat, j: nat, t: TabId)
    requires Steps(states, actions) && i <= j < |states| && t in states[i].tabs && !Threatened(states[i], t)
    requires forall k :: i <= k < j ==>
      actions[k] != Close(t) && (t in states[k].held ==> !CopiesShared(states[k], actions[k], t))
    ensures t in states[j].tabs && t in states[j].held && t in states[i].held && states[j].held[t] == states[i].held[t]
    ensures t in states[j].remints && t in states[i].remints && states[j].remints[t] == states[i].remints[t]
    ensures !Threatened(states[j], t)
  {
    hide Known, Enabled, After, Threatened, CopiesShared;
    StepsKnown(states, actions, i);
    KnownHolds(states[i], t);
    if i < j {
      KeepsIdWhileUnshared(states, actions, i, j - 1, t);
      StepsKnown(states, actions, j - 1);
      UnthreatenedStep(states[j - 1], actions[j - 1], t);
    }
  }

  /** A tab that opens under an unused id never changes it unless somebody opens under it while it is shared. */
  lemma FreshTabKeepsId(states: seq<World>, actions: seq<Action>, i: nat, j: nat, t: TabId)
    requires Steps(states, actions) && i < j < |states|
    requires actions[i].Open? && actions[i].t == t && actions[i].id !in states[i].used
    requires forall k :: i < k < j ==>
      actions[k] != Close(t) && (t in states[k].held ==> !CopiesShared(states[k], actions[k], t))
    ensures t in states[j].held && states[j].held[t] == actions[i].id
    ensures t in states[j].remints && states[j].remints[t] == 0
  {
    hide Known, Threatened, CopiesShared;
    StepsKnown(states, actions, i);
    OpensUnthreatened(states[i], t, actions[i].id);
    OpensFresh(states[i], t, actions[i].id);
    KeepsIdWhileUnshared(states, actions, i + 1, j, t);
  }

  lemma OpensFresh(w: World, t: TabId, id: ReplicaId)
    requires t !in w.tabs
    ensures var after := After(w, Open(t, id));
      t in after.tabs && t in after.held && after.held[t] == id && t in after.remints && after.remints[t] == 0
  {
  }

  /** From the very start: as long as every opening is careful, no tab ever changes its id twice. */
  lemma OnceFromTheStart(states: seq<World>, actions: seq<Action>, i: nat)
    requires |states| == |actions| + 1 && states[0] == Start() && i < |states|
    requires forall j :: 0 <= j < |actions| ==>
      Enabled(states[j], actions[j]) && states[j + 1] == After(states[j], actions[j])
    requires forall j :: 0 <= j < i ==> Careful(states[j], actions[j])
    ensures AtMostOnce(states[i])
  {
    hide Threatened, Enabled, After, Careful;
    CarefulKeepsPromise(states, actions, i);
  }

  // ---------- the duel ends ----------

  /**
   A tab with a fresh id holds it alone, and nothing about it is on its way to the
   tab itself; nobody answers for it.
   */
  ghost predicate Settled(w: World, renewed: set<TabId>) {
    forall t :: t in renewed ==> t in w.tabs && t in w.held && AloneWithIt(w, t)
  }

  ghost predicate AloneWithIt(w: World, t: TabId)
    requires t in w.held
  {
    && (forall u :: u in w.tabs && u in w.held && u != t ==> w.held[u] != w.held[t])
    && forall d :: d in w.mail && d.message.id == w.held[t] ==> d.message.Claim? && d.to != t
  }

  ghost function Renewing(w: World, i: nat, renewed: set<TabId>): set<TabId>
    requires i < |w.mail|
  {
    var d := w.mail[i];
    if d.to in w.tabs && d.to in w.held && d.message == Taken(w.held[d.to]) then renewed + {d.to} else renewed
  }

  lemma SettledStep(w: World, i: nat, minted: ReplicaId, renewed: set<TabId>)
    requires Known(w) && Settled(w, renewed) && i < |w.mail| && minted !in w.used
    ensures Settled(Delivered(w, i, minted), Renewing(w, i, renewed)) && Known(Delivered(w, i, minted))
    ensures w.mail[i].to in renewed && w.mail[i].to in w.tabs && w.mail[i].to in w.held ==>
      w.mail[i].message.id != w.held[w.mail[i].to]
  {
    var after := Delivered(w, i, minted);
    var d := w.mail[i];
    RemovedMembers(w.mail, i);
    assert d in w.mail;
    forall t | t in Renewing(w, i, renewed)
      ensures t in after.tabs && t in after.held && AloneWithIt(after, t)
    {
      if t in renewed {
        assert AloneWithIt(w, t);
      }
    }
  }

  /** Room for the answers a message can still cause: at most one to each other tab. */
  function MailWeight(mail: seq<Delivery>, n: nat): nat {
    if mail == [] then 0
    else MailWeight(mail[..|mail| - 1], n) + if mail[|mail| - 1].message.Claim? then n + 1 else 1
  }

  lemma {:induction false} WeightConcat(a: seq<Delivery>, b: seq<Delivery>, n: nat)
    ensures MailWeight(a + b, n) == MailWeight(a, n) + MailWeight(b, n)
  {
    if b == [] {
      assert a + b == a;
    } else {
      assert (a + b)[..|a + b| - 1] == a + b[..|b| - 1];
      WeightConcat(a, b[..|b| - 1], n);
    }
  }

  lemma WeightRemoved(mail: seq<Delivery>, i: nat, n: nat)
    requires i < |mail|
    ensures MailWeight(mail, n) == MailWeight(Removed(mail, i), n) + if mail[i].message.Claim? then n + 1 else 1
  {
    assert mail == mail[..i] + [mail[i]] + mail[i + 1..];
    WeightConcat(mail[..i] + [mail[i]], mail[i + 1..], n);
    WeightConcat(mail[..i], [mail[i]], n);
    WeightConcat(mail[..i], mail[i + 1..], n);
    assert [mail[i]][..0] == [];
  }

  lemma {:induction false} WeightCopies(tabs: seq<TabId>, from: TabId, message: Message, n: nat)
    ensures MailWeight(Copies(tabs, from, message), n)
         == |Copies(tabs, from, message)| * if message.Claim? then n + 1 else 1
  {
    if tabs != [] {
      WeightCopies(tabs[1..], from, message, n);
      var rest := Copies(tabs[1..], from, message);
      var one := [Delivery(tabs[0], message)];
      WeightConcat(one, rest, n);
      assert one[..0] == [];
      var each := if message.Claim? then n + 1 else 1;
      assert MailWeight(one, n) == each;
      MulStep(|rest|, each);
    }
  }

  lemma MulStep(k: nat, each: nat)
    ensures (k + 1) * each == k * each + each
  {
  }

  /** What deliveries can still happen: `m` tabs that may take a fresh id, and mail under way. */
  ghost function Potential(w: World, m: int, n: nat): int {
    RenewalRoom(n, m) + MailWeight(w.mail, n)
  }

  /** Every tab that may still renew its id pays for the claims it would post. */
  function RenewalRoom(n: int, m: int): int {
    n * n * m
  }

  lemma AnswerCosts(w: World, i: nat, posts: seq<Delivery>, answer: Message, n: nat)
    requires i < |w.mail| && |w.tabs| <= n
    requires posts == Copies(w.tabs, w.mail[i].to, answer) && w.mail[i].to in w.tabs
    requires answer.Claim? <==> w.mail[i].message.Taken?
    ensures |posts| < n
    ensures MailWeight(Removed(w.mail, i) + posts, n) == MailWeight(w.mail, n)
      + |posts| * (if answer.Claim? then n + 1 else 1) - (if answer.Claim? then 1 else n + 1)
  {
    hide MailWeight, Copies;
    WeightRemoved(w.mail, i, n);
    WeightConcat(Removed(w.mail, i), posts, n);
    WeightCopies(w.tabs, w.mail[i].to, answer, n);
  }

  /** The delivery makes its receiver take a fresh id. */
  ghost predicate Renews(w: World, i: nat)
    requires i < |w.mail|
  {
    var d := w.mail[i];
    d.to in w.tabs && d.to in w.held && d.message == Taken(w.held[d.to])
  }

  /** Every delivery uses up some of the potential. */
  lemma DeliveryCosts(w: World, i: nat, minted: ReplicaId, m: int, n: nat)
    requires i < |w.mail| && minted !in w.used && |w.tabs| <= n && Known(w)
    ensures Potential(Delivered(w, i, minted), if Renews(w, i) then m - 1 else m, n) < Potential(w, m, n)
  {
    hide MailWeight, Copies, Removed, RenewalRoom;
    var d := w.mail[i];
    assert d in w.mail;
    if d.to in w.tabs && d.to in w.held && d.message.id == w.held[d.to] {
      var answer := if d.message.Claim? then Taken(w.held[d.to]) else Claim(minted);
      var posts := Copies(w.tabs, d.to, answer);
      assert Delivered(w, i, minted).mail == Removed(w.mail, i) + posts;
      AnswerCosts(w, i, posts, answer, n);
      if d.message.Taken? {
        RenewalCosts(n, m, |posts|);
      }
    } else {
      assert Delivered(w, i, minted).mail == Removed(w.mail, i);
      WeightRemoved(w.mail, i, n);
    }
  }

  lemma RenewalCosts(n: nat, m: int, posts: nat)
    requires posts < n
    ensures RenewalRoom(n, m - 1) + posts * (n + 1) < RenewalRoom(n, m) + 1
  {
    assert n * n * m == n * n * (m - 1) + n * n;
    assert posts * (n + 1) <= (n - 1) * (n + 1) == n * n - 1 by {
      assert posts * (n + 1) <= (n - 1) * (n + 1) by {
        MulMonotone(posts, n - 1, n + 1);
      }
    }
  }

  lemma MulMonotone(a: nat, b: nat, c: nat)
    requires a <= b
    ensures a * c <= b * c
  {
  }

  // ---------- the account of a run ----------

  ghost function TabSet(tabs: seq<TabId>): set<TabId> {
    set t | t in tabs
  }

  /** The tabs that surely hold their id alone; opening under an id some tab has had ends the certainty. */
  ghost function StillAlone(w: World, action: Action, alone: set<TabId>): set<TabId>
    requires Enabled(w, action)
  {
    match action
    case Open(t, id) => if id in w.used then {} else alone + {t}
    case Close(t) => alone - {t}
    case Deliver(i, _) => Renewing(w, i, alone)
  }

  lemma AloneStep(w: World, action: Action, alone: set<TabId>)
    requires Known(w) && Settled(w, alone) && Enabled(w, action)
    ensures Settled(After(w, action), StillAlone(w, action, alone))
  {
    if action.Deliver? {
      SettledStep(w, action.i, action.minted, alone);
    } else {
      var after := After(w, action);
      forall u | u in StillAlone(w, action, alone)
        ensures u in after.tabs && u in after.held && AloneWithIt(after, u)
      {
        if u in alone {
          assert AloneWithIt(w, u);
        }
      }
    }
  }

  ghost function AloneAt(states: seq<World>, actions: seq<Action>, i: nat): set<TabId>
    requires Steps(states, actions) && i < |states|
  {
    if i == 0 then {} else StillAlone(states[i - 1], actions[i - 1], AloneAt(states, actions, i - 1))
  }

  lemma {:induction false} AloneHolds(states: seq<World>, actions: seq<Action>, i: nat)
    requires Steps(states, actions) && i < |states|
    ensures Known(states[i]) && Settled(states[i], AloneAt(states, actions, i))
  {
    hide Known, Enabled, After, Settled, StillAlone;
    StepsKnown(states, actions, i);
    if i > 0 {
      AloneHolds(states, actions, i - 1);
      AloneStep(states[i - 1], actions[i - 1], AloneAt(states, actions, i - 1));
    } else {
      NobodyIsSettled(states[0]);
    }
  }

  lemma NobodyIsSettled(w: World)
    ensures Settled(w, {})
  {
  }

  /** The tabs that may still take a fresh id. */
  ghost function Unsure(w: World, alone: set<TabId>): nat {
    |TabSet(w.tabs) - alone|
  }

  lemma {:induction false} TabSetSize(tabs: seq<TabId>)
    ensures |TabSet(tabs)| <= |tabs|
  {
    if tabs == [] {
      assert TabSet(tabs) == {};
    } else {
      TabSetSize(tabs[1..]);
      assert TabSet(tabs) == {tabs[0]} + TabSet(tabs[1..]);
    }
  }

  function DeliveriesIn(actions: seq<Action>): nat {
    if actions == [] then 0
    else DeliveriesIn(actions[..|actions| - 1]) + if actions[|actions| - 1].Deliver? then 1 else 0
  }

  function OpeningsIn(actions: seq<Action>): nat {
    if actions == [] then 0
    else OpeningsIn(actions[..|actions| - 1]) + if actions[|actions| - 1].Open? then 1 else 0
  }

  /** Openings under an id that some tab has had. */
  ghost function CopiesIn(states: seq<World>, actions: seq<Action>): nat
    requires |states| > |actions|
  {
    if actions == [] then 0
    else
      var n := |actions| - 1;
      CopiesIn(states, actions[..n]) + if actions[n].Open? && actions[n].id in states[n].used then 1 else 0
  }

  lemma OpeningCosts(w: World, t: TabId, id: ReplicaId, m: int, n: nat)
    requires t !in w.tabs && |w.tabs| <= n
    ensures Potential(After(w, Open(t, id)), m, n) <= Potential(w, m, n) + n * (n + 1)
  {
    var posts := Copies(w.tabs, t, Claim(id));
    WeightConcat(w.mail, posts, n);
    WeightCopies(w.tabs, t, Claim(id), n);
    MulMonotone(|posts|, n, n + 1);
  }

  lemma RoomGrows(w: World, m: nat, k: nat, n: nat)
    requires m <= k
    ensures Potential(w, m, n) <= Potential(w, k, n) && Potential(w, k, n) == Potential(w, 0, n) + n * n * k
  {
    MulMonotone(m, k, n * n);
  }

  /** Closing takes letters away and adds none. */
  lemma {:induction false} WeightNotTo(mail: seq<Delivery>, t: TabId, n: nat)
    ensures MailWeight(NotTo(mail, t), n) <= MailWeight(mail, n)
  {
    if mail != [] {
      var k := |mail| - 1;
      WeightNotTo(mail[..k], t, n);
      assert (NotTo(mail[..k], t) + [mail[k]])[..|NotTo(mail[..k], t)|] == NotTo(mail[..k], t);
    }
  }

  lemma UnsureIsBounded(w: World, alone: set<TabId>)
    ensures Unsure(w, alone) <= |w.tabs|
  {
    TabSetSize(w.tabs);
    SubsetSize(TabSet(w.tabs) - alone, TabSet(w.tabs));
  }

  lemma UnsureAfterOpening(w: World, t: TabId, id: ReplicaId, alone: set<TabId>)
    requires t !in w.tabs && id !in w.used
    ensures Unsure(After(w, Open(t, id)), StillAlone(w, Open(t, id), alone)) == Unsure(w, alone)
  {
    var after := After(w, Open(t, id));
    assert TabSet(after.tabs) - (alone + {t}) == TabSet(w.tabs) - alone;
  }

  lemma UnsureAfterClosing(w: World, t: TabId, alone: set<TabId>)
    requires t in w.tabs
    ensures Unsure(After(w, Close(t)), StillAlone(w, Close(t), alone)) <= Unsure(w, alone)
  {
    SubsetSize(TabSet(After(w, Close(t)).tabs) - (alone - {t}), TabSet(w.tabs) - alone);
  }

  lemma UnsureAfterDelivery(w: World, i: nat, minted: ReplicaId, alone: set<TabId>)
    requires Known(w) && Settled(w, alone) && Enabled(w, Deliver(i, minted))
    ensures Unsure(Delivered(w, i, minted), Renewing(w, i, alone)) == Unsure(w, alone) - if Renews(w, i) then 1 else 0
  {
    SettledStep(w, i, minted, alone);
    hide Settled, Known, Handle, Copies, Removed;
    var after := Delivered(w, i, minted);
    assert after.tabs == w.tabs;
    var to := w.mail[i].to;
    if Renews(w, i) {
      assert TabSet(after.tabs) - (alone + {to}) == (TabSet(w.tabs) - alone) - {to};
      assert to in TabSet(w.tabs) - alone;
    }
  }

  /** One step: a delivery uses up potential, an opening adds room for its claims and, under a copied id, for renewals. */
  lemma StepCosts(w: World, action: Action, alone: set<TabId>, n: nat)
    requires Known(w) && Settled(w, alone) && Enabled(w, action)
    requires |w.tabs| <= n && |After(w, action).tabs| <= n
    ensures Potential(After(w, action), Unsure(After(w, action), StillAlone(w, action, alone)), n)
          + (if action.Deliver? then 1 else 0)
      <= Potential(w, Unsure(w, alone), n)
         + (if action.Open? then n * (n + 1) else 0)
         + if action.Open? && action.id in w.used then n * n * n else 0
  {
    hide Settled, Known, Potential, Unsure;
    match action
    case Open(t, id) => OpeningStepCosts(w, t, id, alone, n);
    case Close(t) =>
      hide After, StillAlone;
      var k := Unsure(After(w, action), StillAlone(w, action, alone));
      UnsureAfterClosing(w, t, alone);
      ClosingCosts(w, t, k, n);
      RoomGrows(w, k, Unsure(w, alone), n);
    case Deliver(i, minted) =>
      hide Delivered, Renews, Renewing;
      UnsureAfterDelivery(w, i, minted, alone);
      DeliveryCosts(w, i, minted, Unsure(w, alone), n);
  }

  lemma OpeningStepCosts(w: World, t: TabId, id: ReplicaId, alone: set<TabId>, n: nat)
    requires t !in w.tabs && |w.tabs| <= n && |After(w, Open(t, id)).tabs| <= n
    ensures var after := After(w, Open(t, id));
      Potential(after, Unsure(after, StillAlone(w, Open(t, id), alone)), n)
        <= Potential(w, Unsure(w, alone), n) + n * (n + 1) + if id in w.used then n * n * n else 0
  {
    hide Potential, Unsure;
    var after := After(w, Open(t, id));
    var k := Unsure(after, StillAlone(w, Open(t, id), alone));
    OpeningCosts(w, t, id, k, n);
    if id in w.used {
      UnsureIsBounded(after, {});
      RoomGrows(w, k, n, n);
      RoomGrows(w, 0, Unsure(w, alone), n);
    } else {
      UnsureAfterOpening(w, t, id, alone);
    }
  }

  lemma ClosingCosts(w: World, t: TabId, m: int, n: nat)
    requires t in w.tabs
    ensures Potential(After(w, Close(t)), m, n) <= Potential(w, m, n)
  {
    WeightNotTo(w.mail, t, n);
  }

  /** What is left to deliver after `i` steps. */
  ghost function Left(states: seq<World>, actions: seq<Action>, i: nat, n: nat): int
    requires Steps(states, actions) && i < |states|
  {
    Potential(states[i], Unsure(states[i], AloneAt(states, actions, i)), n)
  }

  /** The room that the openings among the first `i` steps add. */
  ghost function Added(states: seq<World>, actions: seq<Action>, i: nat, n: nat): int
    requires Steps(states, actions) && i < |states|
  {
    OpeningsIn(actions[..i]) * (n * (n + 1)) + CopiesIn(states, actions[..i]) * (n * n * n)
  }

  lemma AddedStep(states: seq<World>, actions: seq<Action>, i: nat, n: nat)
    requires Steps(states, actions) && i < |actions|
    ensures Added(states, actions, i + 1, n) == Added(states, actions, i, n)
      + (if actions[i].Open? then n * (n + 1) else 0)
      + if actions[i].Open? && actions[i].id in states[i].used then n * n * n else 0
    ensures DeliveriesIn(actions[..i + 1]) == DeliveriesIn(actions[..i]) + if actions[i].Deliver? then 1 else 0
  {
    hide Enabled, After, Known;
    assert actions[..i + 1][..i] == actions[..i];
    MulStep(OpeningsIn(actions[..i]), n * (n + 1));
    MulStep(CopiesIn(states, actions[..i]), n * n * n);
  }

  lemma LeftStep(states: seq<World>, actions: seq<Action>, i: nat, n: nat)
    requires Steps(states, actions) && i < |actions| && |states[i].tabs| <= n && |states[i + 1].tabs| <= n
    ensures Left(states, actions, i + 1, n) + (if actions[i].Deliver? then 1 else 0)
      <= Left(states, actions, i, n)
         + (if actions[i].Open? then n * (n + 1) else 0)
         + if actions[i].Open? && actions[i].id in states[i].used then n * n * n else 0
  {
    hide Settled, Known, After, Enabled, StillAlone, Potential, Unsure;
    AloneHolds(states, actions, i);
    StepCosts(states[i], actions[i], AloneAt(states, actions, i), n);
  }

  /**
   In every run the messages run out: there are no more deliveries than the start,
   the openings and the openings under copied ids leave room for.
   */
  lemma {:induction false} DuelEnds(states: seq<World>, actions: seq<Action>, i: nat, n: nat)
    requires Steps(states, actions) && i < |states|
    requires forall j :: 0 <= j < |states| ==> |states[j].tabs| <= n
    ensures 0 <= Left(states, actions, i, n)
    ensures DeliveriesIn(actions[..i]) + Left(states, actions, i, n)
      <= Potential(states[0], |TabSet(states[0].tabs)|, n) + Added(states, actions, i, n)
  {
    hide Known, After, Enabled, StillAlone, Potential;
    PotentialIsNatural(states[i], Unsure(states[i], AloneAt(states, actions, i)), n);
    if i > 0 {
      hide Added, Left, Unsure;
      DuelEnds(states, actions, i - 1, n);
      AddedStep(states, actions, i - 1, n);
      LeftStep(states, actions, i - 1, n);
    } else {
      assert TabSet(states[0].tabs) - {} == TabSet(states[0].tabs);
    }
  }

  lemma PotentialIsNatural(w: World, m: nat, n: nat)
    ensures Potential(w, m, n) >= 0
  {
    MulMonotone(0, n * n, m);
  }

  // ---------- tabs that keep opening ----------

  lemma RunExtends(states: seq<World>, action: Action)
    requires Run(states) && Enabled(states[|states| - 1], action)
    ensures Run(states + [After(states[|states| - 1], action)])
  {
    hide After, Enabled;
    var more := states + [After(states[|states| - 1], action)];
    forall i | 0 < i < |more|
      ensures Next(more[i - 1], more[i])
    {
      if i < |states| {
        assert Next(states[i - 1], states[i]);
      }
    }
  }

  // Two tabs `a` and `b` that held one id; `b` has taken the fresh id `z` and announced it.
  ghost function OneRenewed(a: TabId, b: TabId, x: ReplicaId, z: ReplicaId): World {
    World([a, b], map[a := x, b := z], [Delivery(a, Claim(z))], {x, z}, map[a := 0, b := 1])
  }

  // A tab and its duplicate, whose claim is on its way.
  ghost function Duplicated(a: TabId, b: TabId, x: ReplicaId): World {
    World([a, b], map[a := x, b := x], [Delivery(a, Claim(x))], {x}, map[a := 0, b := 0])
  }

  lemma DuplicateOpens(a: TabId, b: TabId, x: ReplicaId) returns (states: seq<World>)
    requires a != b
    ensures Run(states) && states[|states| - 1] == Duplicated(a, b, x)
  {
    var s1 := After(Start(), Open(a, x));
    assert s1.mail == [] && s1.tabs == [a];
    assert Copies([a], b, Claim(x)) == [Delivery(a, Claim(x))];
    assert After(s1, Open(b, x)) == Duplicated(a, b, x);
    hide After, Enabled, Duplicated;
    states := [Start()];
    RunExtends(states, Open(a, x));
    states := states + [s1];
    RunExtends(states, Open(b, x));
    states := states + [Duplicated(a, b, x)];
  }

  lemma DuplicateYields(a: TabId, b: TabId, x: ReplicaId, z: ReplicaId) returns (s1: World)
    requires a != b && x != z
    ensures Enabled(Duplicated(a, b, x), Deliver(0, z)) && s1 == After(Duplicated(a, b, x), Deliver(0, z))
    ensures Enabled(s1, Deliver(0, z)) && After(s1, Deliver(0, z)) == OneRenewed(a, b, x, z)
  {
    var s0 := Duplicated(a, b, x);
    assert [a, b][1..] == [b];
    assert Copies([b], a, Taken(x)) == [Delivery(b, Taken(x))];
    assert Copies([a, b], a, Taken(x)) == [Delivery(b, Taken(x))];
    assert Copies([b], b, Claim(z)) == [];
    assert Copies([a, b], b, Claim(z)) == [Delivery(a, Claim(z))];
    hide Copies;
    s1 := After(s0, Deliver(0, z));
    assert s1 == s0.(mail := [Delivery(b, Taken(x))]);
  }

  lemma FirstRenewal(a: TabId, b: TabId, x: ReplicaId, z: ReplicaId) returns (states: seq<World>)
    requires a != b && x != z
    ensures Run(states) && states[|states| - 1] == OneRenewed(a, b, x, z)
  {
    hide After, Enabled, Duplicated, OneRenewed;
    states := DuplicateOpens(a, b, x);
    var s1 := DuplicateYields(a, b, x, z);
    RunExtends(states, Deliver(0, z));
    states := states + [s1];
    RunExtends(states, Deliver(0, z));
    states := states + [OneRenewed(a, b, x, z)];
  }

  // Both copies of `b` are open and have announced `z`.
  ghost function TwoCopies(a: TabId, b: TabId, c: TabId, d: TabId, x: ReplicaId, z: ReplicaId): World {
    World([a, b, c, d], map[a := x, b := z, c := z, d := z],
          [Delivery(a, Claim(z)), Delivery(a, Claim(z)), Delivery(b, Claim(z)),
           Delivery(a, Claim(z)), Delivery(b, Claim(z)), Delivery(c, Claim(z))],
          {x, z}, map[a := 0, b := 1, c := 0, d := 0])
  }

  lemma CopiesOpen(a: TabId, b: TabId, c: TabId, d: TabId, x: ReplicaId, z: ReplicaId) returns (s1: World)
    requires a != b && c != a && c != b && d != a && d != b && d != c && x != z
    ensures Enabled(OneRenewed(a, b, x, z), Open(c, z)) && s1 == After(OneRenewed(a, b, x, z), Open(c, z))
    ensures Enabled(s1, Open(d, z)) && After(s1, Open(d, z)) == TwoCopies(a, b, c, d, x, z)
  {
    var s0 := OneRenewed(a, b, x, z);
    s1 := After(s0, Open(c, z));
    assert Copies([b], c, Claim(z)) == [Delivery(b, Claim(z))];
    assert s1.mail == s0.mail + [Delivery(a, Claim(z)), Delivery(b, Claim(z))];
    assert s1.tabs == [a, b, c];
    assert [a, b, c][1..] == [b, c] && [b, c][1..] == [c];
    assert Copies([c], d, Claim(z)) == [Delivery(c, Claim(z))];
    assert Copies([b, c], d, Claim(z)) == [Delivery(b, Claim(z)), Delivery(c, Claim(z))];
    var s2 := After(s1, Open(d, z));
    assert s2.mail == s1.mail + [Delivery(a, Claim(z)), Delivery(b, Claim(z)), Delivery(c, Claim(z))];
    assert s2.used == {x, z};
  }

  lemma SecondCopyIsContested(a: TabId, b: TabId, c: TabId, x: ReplicaId, z: ReplicaId)
    requires a != b && c != a && c != b && x != z
    ensures Enabled(OneRenewed(a, b, x, z), Open(c, z))
    ensures Careful(OneRenewed(a, b, x, z), Open(c, z))
    ensures Contested(After(OneRenewed(a, b, x, z), Open(c, z)), z)
  {
    hide Copies;
    var s1 := After(OneRenewed(a, b, x, z), Open(c, z));
    assert b in s1.tabs && c in s1.tabs && Share(s1, b, c) && Changed(s1, b);
  }

  // One copy has heard the other's claim and answered all tabs.
  ghost function Answered(a: TabId, b: TabId, c: TabId, d: TabId, x: ReplicaId, z: ReplicaId): World {
    TwoCopies(a, b, c, d, x, z).(
      mail := [Delivery(a, Claim(z)), Delivery(a, Claim(z)), Delivery(b, Claim(z)), Delivery(a, Claim(z)),
               Delivery(b, Claim(z)), Delivery(a, Taken(z)), Delivery(b, Taken(z)), Delivery(d, Taken(z))])
  }

  lemma AnswerCopies(a: TabId, b: TabId, c: TabId, d: TabId, z: ReplicaId)
    requires a != b && c != a && c != b && d != a && d != b && d != c
    ensures Copies([a, b, c, d], c, Taken(z)) == [Delivery(a, Taken(z)), Delivery(b, Taken(z)), Delivery(d, Taken(z))]
  {
    assert [a, b, c, d][1..] == [b, c, d] && [b, c, d][1..] == [c, d] && [c, d][1..] == [d];
    assert Copies([d], c, Taken(z)) == [Delivery(d, Taken(z))];
    assert Copies([c, d], c, Taken(z)) == [Delivery(d, Taken(z))];
    assert Copies([b, c, d], c, Taken(z)) == [Delivery(b, Taken(z)), Delivery(d, Taken(z))];
  }

  lemma CopyAnswers(a: TabId, b: TabId, c: TabId, d: TabId, x: ReplicaId, z: ReplicaId, y: ReplicaId)
    requires a != b && c != a && c != b && d != a && d != b && d != c && x != z && y != x && y != z
    ensures Enabled(TwoCopies(a, b, c, d, x, z), Deliver(5, y))
    ensures After(TwoCopies(a, b, c, d, x, z), Deliver(5, y)) == Answered(a, b, c, d, x, z)
  {
    var s0 := TwoCopies(a, b, c, d, x, z);
    AnswerCopies(a, b, c, d, z);
    hide Copies;
    assert s0.mail[5] == Delivery(c, Claim(z)) && s0.held[c] == z;
    assert Removed(s0.mail, 5) + Copies(s0.tabs, c, Taken(z)) == Answered(a, b, c, d, x, z).mail;
  }

  lemma OriginalHears(a: TabId, b: TabId, c: TabId, d: TabId, x: ReplicaId, z: ReplicaId, y: ReplicaId)
    requires a != b && c != a && c != b && d != a && d != b && d != c && x != z && y != x && y != z
    ensures Enabled(Answered(a, b, c, d, x, z), Deliver(6, y))
    ensures After(Answered(a, b, c, d, x, z), Deliver(6, y)).remints == map[a := 0, b := 2, c := 0, d := 0]
  {
    hide Copies;
    var s0 := Answered(a, b, c, d, x, z);
    assert s0.mail[6] == Delivery(b, Taken(z)) && s0.held[b] == z && b in s0.tabs;
  }

  ghost predicate OpensContested(w: World, after: World, t: TabId, id: ReplicaId) {
    Enabled(w, Open(t, id)) && after == After(w, Open(t, id)) && Contested(w, id)
  }

  /**
   When a tab opens under a contested id, a tab can lose its id a second time: two
   copies of a tab answer each other, and the original hears the answer too.
   */
  lemma OpeningTabsRenewAgain(a: TabId, b: TabId, c: TabId, d: TabId, x: ReplicaId, z: ReplicaId, y: ReplicaId)
    returns (states: seq<World>)
    requires a != b && c != a && c != b && d != a && d != b && d != c && x != z && y != x && y != z
    ensures Run(states) && b in states[|states| - 1].remints && states[|states| - 1].remints[b] == 2
    ensures exists k :: 0 <= k < |states| - 1 && OpensContested(states[k], states[k + 1], d, z)
  {
    hide After, Enabled, OneRenewed, TwoCopies, Answered;
    states := FirstRenewal(a, b, x, z);
    var s1 := CopiesOpen(a, b, c, d, x, z);
    SecondCopyIsContested(a, b, c, x, z);
    RunExtends(states, Open(c, z));
    states := states + [s1];
    RunExtends(states, Open(d, z));
    var k := |states| - 1;
    states := states + [TwoCopies(a, b, c, d, x, z)];
    assert OpensContested(states[k], states[k + 1], d, z);
    CopyAnswers(a, b, c, d, x, z, y);
    RunExtends(states, Deliver(5, y));
    states := states + [Answered(a, b, c, d, x, z)];
    OriginalHears(a, b, c, d, x, z, y);
    RunExtends(states, Deliver(6, y));
    states := states + [After(Answered(a, b, c, d, x, z), Deliver(6, y))];
    assert OpensContested(states[k], states[k + 1], d, z);
  }
}
