/**
 Saving edits at least once: tabs put updates into the device's pending store,
 flush them to the server, and drop them once the server has given a receipt.
 Tabs close at any moment, requests arrive late, repeatedly or never, replies
 get lost; the server appends every batch once.
 */
module Receipts {
  import opened Collections
  import opened Updates

  // An update's identity in the pending store, minted when it is put there.
  datatype Batch = Batch(n: nat)

  datatype Entry = Entry(id: Batch, bytes: set<Op>)

  // What the server remembers about a batch; the bytes stand for their digest.
  datatype Receipt = Receipt(bytes: set<Op>, revision: nat)

  datatype Reply = Persisted(id: Batch, revision: nat) | Conflict(id: Batch)

  datatype Status = Opened | SavingLocally | PendingSync | SavedOnServer | StorageError | SyncError

  datatype Flush =
    | Idle
    | Sending(list: seq<Entry>, next: nat)
    | Loaded(list: seq<Entry>, state: set<Op>)

  datatype Tab = Tab(doc: set<Op>, queued: seq<set<Op>>, failed: bool, flush: Flush, status: Status)

  datatype TabId = TabId(n: nat)

  datatype Server = Server(receipts: map<Batch, Receipt>, log: seq<Entry>, merged: set<Op>, revision: nat)

  /**
   The device, the network and the server. `stored` is every update that ever
   reached the pending store; `edited` and `dropped` are what a tab produced and
   what it failed to store.
   */
  datatype World = World(tabs: map<TabId, Tab>, pending: seq<Entry>, requests: set<Entry>, replies: set<Reply>,
                         server: Server, stored: map<Batch, set<Op>>,
                         edited: map<TabId, set<Op>>, dropped: map<TabId, set<Op>>)

  datatype Action =
    | Open(t: TabId)
    | Close(t: TabId)
    | Edit(t: TabId, bytes: set<Op>)
    | PutDone(t: TabId, id: Batch)
    | PutFails(t: TabId)
    | FlushBegins(t: TabId)
    | Send(t: TabId)
    | Serve(request: Entry)
    | ReceiptArrives(t: TabId, revision: nat)
    | StateArrives(t: TabId)
    | FlushEnds(t: TabId)
    | FlushFails(t: TabId)
    | OthersPersist(request: Entry)
    | OthersAppend(bytes: set<Op>)

  function Start(): World {
    World(map[], [], {}, {}, Server(map[], [], {}, 0), map[], map[], map[])
  }

  // ---------- the server ----------

  /** A known batch is answered from its receipt; a new one is appended and gets one. */
  function Served(s: Server, request: Entry): (r: (Server, Reply)) {
    if request.id in s.receipts then
      (s, if s.receipts[request.id].bytes == request.bytes
          then Persisted(request.id, s.receipts[request.id].revision)
          else Conflict(request.id))
    else
      var revision := s.revision + 1;
      (Server(s.receipts[request.id := Receipt(request.bytes, revision)],
              s.log + [request], s.merged + request.bytes, revision),
       Persisted(request.id, revision))
  }

  /** The receipts are the log: each batch once, in order of revision, all of it merged. */
  ghost predicate ServerHolds(s: Server) {
    LogIsDistinct(s) && LogIsReceipted(s) && ReceiptsAreLogged(s) && LogIsAscending(s)
  }

  ghost predicate LogIsDistinct(s: Server) {
    forall i, j :: 0 <= i < j < |s.log| ==> s.log[i].id != s.log[j].id
  }

  ghost predicate LogIsReceipted(s: Server) {
    forall i :: 0 <= i < |s.log| ==> Receipted(s, s.log[i])
  }

  ghost predicate ReceiptsAreLogged(s: Server) {
    forall b :: b in s.receipts ==> exists i :: 0 <= i < |s.log| && s.log[i].id == b
  }

  ghost function RevisionOf(s: Server, id: Batch): nat {
    if id in s.receipts then s.receipts[id].revision else 0
  }

  ghost predicate LogIsAscending(s: Server) {
    forall i, j :: 0 <= i < j < |s.log| ==> RevisionOf(s, s.log[i].id) < RevisionOf(s, s.log[j].id)
  }

  ghost predicate Receipted(s: Server, e: Entry) {
    && e.id in s.receipts && s.receipts[e.id].bytes == e.bytes
    && s.receipts[e.id].revision <= s.revision && e.bytes <= s.merged
  }

  /** Receipts are never changed or taken back. */
  ghost predicate ServerGrows(a: Server, b: Server) {
    && (forall id :: id in a.receipts ==> id in b.receipts && b.receipts[id] == a.receipts[id])
    && a.log <= b.log && a.merged <= b.merged && a.revision <= b.revision
  }

  lemma ReceiptedGrows(a: Server, b: Server, e: Entry)
    requires ServerGrows(a, b) && Receipted(a, e)
    ensures Receipted(b, e)
  {
  }

  lemma AppendsNew(s: Server, request: Entry)
    requires ServerHolds(s) && request.id !in s.receipts
    ensures ServerHolds(Served(s, request).0) && ServerGrows(s, Served(s, request).0)
    ensures Receipted(Served(s, request).0, request)
  {
    var after := Served(s, request).0;
    assert ServerGrows(s, after) && Receipted(after, request);
    LoggedStayReceipted(s, request);
    LoggedStayAscending(s, request);
    NewIsLogged(s, request);
  }

  lemma LoggedStayReceipted(s: Server, request: Entry)
    requires LogIsReceipted(s) && LogIsDistinct(s) && request.id !in s.receipts
    ensures LogIsReceipted(Served(s, request).0) && LogIsDistinct(Served(s, request).0)
  {
    hide LogIsAscending, ReceiptsAreLogged;
    var after := Served(s, request).0;
    assert Receipted(after, request);
    forall i | 0 <= i < |s.log|
      ensures s.log[i].id != request.id && Receipted(after, s.log[i])
    {
      assert Receipted(s, s.log[i]);
    }
  }

  lemma LoggedStayAscending(s: Server, request: Entry)
    requires LogIsReceipted(s) && LogIsAscending(s) && request.id !in s.receipts
    ensures LogIsAscending(Served(s, request).0)
  {
    hide LogIsDistinct, ReceiptsAreLogged;
    var after := Served(s, request).0;
    forall i | 0 <= i < |s.log|
      ensures RevisionOf(after, s.log[i].id) == RevisionOf(s, s.log[i].id) < RevisionOf(after, request.id)
    {
      assert Receipted(s, s.log[i]);
    }
  }

  lemma NewIsLogged(s: Server, request: Entry)
    requires ReceiptsAreLogged(s) && request.id !in s.receipts
    ensures ReceiptsAreLogged(Served(s, request).0)
  {
    var after := Served(s, request).0;
    forall b | b in after.receipts
      ensures exists i :: 0 <= i < |after.log| && after.log[i].id == b
    {
      if b == request.id {
        assert after.log[|s.log|].id == b;
      } else {
        var i :| 0 <= i < |s.log| && s.log[i].id == b;
        assert after.log[i].id == b;
      }
    }
  }

  lemma KnownIsReceipted(s: Server, id: Batch)
    requires ServerHolds(s) && id in s.receipts
    ensures Receipted(s, Entry(id, s.receipts[id].bytes))
  {
    var i :| 0 <= i < |s.log| && s.log[i].id == id;
    assert Receipted(s, s.log[i]);
  }

  /** A reply repeats the receipt of exactly the bytes sent; only other bytes under a known identity are refused. */
  lemma ServedHolds(s: Server, request: Entry)
    requires ServerHolds(s)
    ensures ServerHolds(Served(s, request).0) && ServerGrows(s, Served(s, request).0)
    ensures match Served(s, request).1
            case Persisted(id, revision) =>
              id == request.id && Receipted(Served(s, request).0, request)
              && Served(s, request).0.receipts[id].revision == revision
            case Conflict(id) =>
              id == request.id && id in s.receipts && s.receipts[id].bytes != request.bytes
  {
    if request.id !in s.receipts {
      AppendsNew(s, request);
    } else {
      KnownIsReceipted(s, request.id);
    }
  }

  // ---------- the steps ----------

  function PendingOps(pending: seq<Entry>): set<Op> {
    set e, op | e in pending && op in e.bytes :: op
  }

  function WithoutBatch(pending: seq<Entry>, id: Batch): seq<Entry> {
    if pending == [] then []
    else if pending[0].id == id then WithoutBatch(pending[1..], id)
    else [pending[0]] + WithoutBatch(pending[1..], id)
  }

  ghost predicate Enabled(w: World, action: Action) {
    match action
    case Open(t) => t !in w.edited
    case Close(t) => t in w.tabs
    case Edit(t, _) => t in w.tabs
    case PutDone(t, id) => t in w.tabs && w.tabs[t].queued != [] && id !in w.stored && id !in w.server.receipts
    case PutFails(t) => t in w.tabs && w.tabs[t].queued != []
    case FlushBegins(t) => t in w.tabs && w.tabs[t].flush.Idle?
    case Send(t) => t in w.tabs && AwaitsReceipt(w.tabs[t])
    case Serve(request) => request in w.requests
    case ReceiptArrives(t, revision) =>
      t in w.tabs && AwaitsReceipt(w.tabs[t]) && Persisted(AwaitedBatch(w.tabs[t]), revision) in w.replies
    case StateArrives(t) =>
      t in w.tabs && w.tabs[t].flush.Sending? && w.tabs[t].flush.next == |w.tabs[t].flush.list|
    case FlushEnds(t) => t in w.tabs && w.tabs[t].flush.Loaded?
    case FlushFails(t) => t in w.tabs && !w.tabs[t].flush.Idle?
    case OthersPersist(request) => request.id !in w.stored
    case OthersAppend(_) => true
  }

  predicate AwaitsReceipt(tab: Tab) {
    tab.flush.Sending? && tab.flush.next < |tab.flush.list|
  }

  function AwaitedBatch(tab: Tab): Batch
    requires AwaitsReceipt(tab)
  {
    tab.flush.list[tab.flush.next].id
  }

  // What each event does to the tab.

  function Opening(pending: seq<Entry>): Tab {
    Tab(PendingOps(pending), [], false, Idle, Opened)
  }

  function Edited(tab: Tab, bytes: set<Op>): Tab {
    tab.(doc := tab.doc + bytes, queued := tab.queued + [bytes], status := SavingLocally)
  }

  function PutSettled(tab: Tab, stored: bool): Tab
    requires tab.queued != []
  {
    if stored then tab.(queued := tab.queued[1..], status := PendingSync)
    else tab.(queued := tab.queued[1..], failed := true, status := StorageError)
  }

  /** A tab whose storage failed does not flush. */
  function FlushBegun(tab: Tab, pending: seq<Entry>): Tab {
    if tab.failed then tab.(status := StorageError) else tab.(flush := Sending(pending, 0))
  }

  function ReceiptTaken(tab: Tab): Tab
    requires AwaitsReceipt(tab)
  {
    tab.(flush := tab.flush.(next := tab.flush.next + 1))
  }

  function StateTaken(tab: Tab, state: set<Op>): Tab
    requires tab.flush.Sending?
  {
    tab.(flush := Loaded(tab.flush.list, state))
  }

  function FlushEnded(tab: Tab, pending: seq<Entry>): Tab
    requires tab.flush.Loaded?
  {
    tab.(doc := tab.doc + tab.flush.state, flush := Idle, status := if pending == [] then SavedOnServer else PendingSync)
  }

  function FlushFailed(tab: Tab): Tab {
    tab.(flush := Idle, status := SyncError)
  }

  function Plus(m: map<TabId, set<Op>>, t: TabId, ops: set<Op>): map<TabId, set<Op>> {
    m[t := (if t in m then m[t] else {}) + ops]
  }

  function After(w: World, action: Action): World
    requires Enabled(w, action)
  {
    match action
    case Open(t) =>
      w.(tabs := w.tabs[t := Opening(w.pending)], edited := w.edited[t := {}], dropped := w.dropped[t := {}])
    case Close(t) => w.(tabs := w.tabs - {t})
    case Edit(t, bytes) =>
      w.(tabs := w.tabs[t := Edited(w.tabs[t], bytes)], edited := Plus(w.edited, t, bytes))
    case PutDone(t, id) =>
      var bytes := w.tabs[t].queued[0];
      w.(tabs := w.tabs[t := PutSettled(w.tabs[t], true)],
         pending := w.pending + [Entry(id, bytes)], stored := w.stored[id := bytes])
    case PutFails(t) =>
      w.(tabs := w.tabs[t := PutSettled(w.tabs[t], false)], dropped := Plus(w.dropped, t, w.tabs[t].queued[0]))
    case FlushBegins(t) => w.(tabs := w.tabs[t := FlushBegun(w.tabs[t], w.pending)])
    case Send(t) => w.(requests := w.requests + {w.tabs[t].flush.list[w.tabs[t].flush.next]})
    case Serve(request) =>
      var (server, reply) := Served(w.server, request);
      w.(server := server, replies := w.replies + {reply})
    case ReceiptArrives(t, _) =>
      w.(tabs := w.tabs[t := ReceiptTaken(w.tabs[t])], pending := WithoutBatch(w.pending, AwaitedBatch(w.tabs[t])))
    case StateArrives(t) => w.(tabs := w.tabs[t := StateTaken(w.tabs[t], w.server.merged)])
    case FlushEnds(t) => w.(tabs := w.tabs[t := FlushEnded(w.tabs[t], w.pending)])
    case FlushFails(t) => w.(tabs := w.tabs[t := FlushFailed(w.tabs[t])])
    case OthersPersist(request) => w.(server := Served(w.server, request).0)
    case OthersAppend(bytes) =>
      w.(server := w.server.(merged := w.server.merged + bytes, revision := w.server.revision + 1))
  }

  ghost predicate Next(a: World, b: World) {
    exists action :: Enabled(a, action) && b == After(a, action)
  }

  ghost predicate Run(states: seq<World>) {
    && |states| > 0 && states[0] == Start()
    && forall i :: 0 < i < |states| ==> Next(states[i - 1], states[i])
  }

  // ---------- the invariant ----------

  ghost predicate Genuine(stored: map<Batch, set<Op>>, e: Entry) {
    e.id in stored && stored[e.id] == e.bytes
  }

  ghost predicate AllGenuine(stored: map<Batch, set<Op>>, entries: seq<Entry>) {
    forall i :: 0 <= i < |entries| ==> Genuine(stored, entries[i])
  }

  ghost predicate IsPending(pending: seq<Entry>, id: Batch) {
    exists i :: 0 <= i < |pending| && pending[i].id == id
  }

  /** Everything that was stored is still pending or has a receipt for exactly its bytes. */
  ghost predicate NothingLost(stored: map<Batch, set<Op>>, pending: seq<Entry>, server: Server) {
    forall id :: id in stored ==> IsPending(pending, id) || Receipted(server, Entry(id, stored[id]))
  }

  ghost predicate RequestsGenuine(stored: map<Batch, set<Op>>, requests: set<Entry>) {
    forall e :: e in requests ==> Genuine(stored, e)
  }

  ghost predicate ReceiptsGenuine(stored: map<Batch, set<Op>>, server: Server) {
    forall id :: id in stored && id in server.receipts ==> server.receipts[id].bytes == stored[id]
  }

  /** Every reply repeats the receipt, and no batch of this device was ever refused. */
  ghost predicate RepliesAgree(replies: set<Reply>, server: Server) {
    forall r :: r in replies ==> r.Persisted? && r.id in server.receipts && server.receipts[r.id].revision == r.revision
  }

  /** A flush has receipts for what it passed, and the state it loaded holds all it sent. */
  ghost predicate FlushHolds(stored: map<Batch, set<Op>>, server: Server, flush: Flush) {
    match flush
    case Idle => true
    case Sending(list, next) =>
      && AllGenuine(stored, list)
      && next <= |list| && forall i :: 0 <= i < next ==> Receipted(server, list[i])
    case Loaded(list, state) =>
      && AllGenuine(stored, list)
      && state <= server.merged && forall i :: 0 <= i < |list| ==> list[i].bytes <= state
  }

  ghost predicate FlushesHold(stored: map<Batch, set<Op>>, server: Server, tabs: map<TabId, Tab>) {
    forall t :: t in tabs ==> FlushHolds(stored, server, tabs[t].flush)
  }

  ghost function QueuedOps(queued: seq<set<Op>>): set<Op> {
    set i, op | 0 <= i < |queued| && op in queued[i] :: op
  }

  ghost function StoredOps(stored: map<Batch, set<Op>>): set<Op> {
    set id, op | id in stored && op in stored[id] :: op
  }

  /** Whatever a tab produced is queued, stored or dropped. */
  ghost predicate Accounted(kept: set<Op>, queued: set<Op>, edited: set<Op>, dropped: set<Op>) {
    edited <= queued + kept + dropped && queued + dropped <= edited
  }

  ghost predicate EditsAccounted(stored: map<Batch, set<Op>>, tabs: map<TabId, Tab>, edited: map<TabId, set<Op>>,
                                 dropped: map<TabId, set<Op>>)
  {
    && tabs.Keys <= edited.Keys && edited.Keys == dropped.Keys
    && forall t :: t in tabs ==> Accounted(StoredOps(stored), QueuedOps(tabs[t].queued), edited[t], dropped[t])
  }

  ghost predicate Inv(w: World) {
    && NothingLost(w.stored, w.pending, w.server)
    && AllGenuine(w.stored, w.pending) && RequestsGenuine(w.stored, w.requests)
    && ServerHolds(w.server) && ReceiptsGenuine(w.stored, w.server) && RepliesAgree(w.replies, w.server)
    && FlushesHold(w.stored, w.server, w.tabs)
    && EditsAccounted(w.stored, w.tabs, w.edited, w.dropped)
  }

  // ---------- one step ----------

  lemma {:induction false} WithoutKeeps(pending: seq<Entry>, id: Batch)
    ensures forall e :: e in WithoutBatch(pending, id) <==> e in pending && e.id != id
  {
    if pending != [] {
      WithoutKeeps(pending[1..], id);
    }
  }

  lemma QueueSplits(queued: seq<set<Op>>)
    requires queued != []
    ensures QueuedOps(queued) == queued[0] + QueuedOps(queued[1..])
  {
    forall op
      ensures op in QueuedOps(queued) <==> op in queued[0] + QueuedOps(queued[1..])
    {
      if op in QueuedOps(queued) {
        var i :| 0 <= i < |queued| && op in queued[i];
        assert i > 0 ==> queued[1..][i - 1] == queued[i];
      }
      if op in QueuedOps(queued[1..]) {
        var i :| 0 <= i < |queued[1..]| && op in queued[1..][i];
        assert queued[i + 1] == queued[1..][i];
      }
    }
    SetEquality(QueuedOps(queued), queued[0] + QueuedOps(queued[1..]));
  }

  lemma QueueGrows(queued: seq<set<Op>>, bytes: set<Op>)
    ensures QueuedOps(queued + [bytes]) == QueuedOps(queued) + bytes
  {
    var more := queued + [bytes];
    forall op
      ensures op in QueuedOps(more) <==> op in QueuedOps(queued) + bytes
    {
      if op in QueuedOps(queued) {
        var i :| 0 <= i < |queued| && op in queued[i];
        assert more[i] == queued[i];
      }
      if op in bytes {
        assert more[|queued|] == bytes;
      }
    }
    SetEquality(QueuedOps(more), QueuedOps(queued) + bytes);
  }

  lemma StoreGrows(stored: map<Batch, set<Op>>, id: Batch, bytes: set<Op>)
    requires id !in stored
    ensures StoredOps(stored[id := bytes]) == StoredOps(stored) + bytes
  {
    var more := stored[id := bytes];
    forall op
      ensures op in StoredOps(more) <==> op in StoredOps(stored) + bytes
    {
      if op in StoredOps(stored) {
        var b :| b in stored && op in stored[b];
        assert b in more && op in more[b];
      }
      if op in bytes {
        assert id in more && op in more[id];
      }
    }
    SetEquality(StoredOps(more), StoredOps(stored) + bytes);
  }

  /** Whoever the server grows for keeps the receipts and replies it had. */
  lemma GrowthKeeps(w: World, server: Server)
    requires Inv(w) && ServerGrows(w.server, server) && ServerHolds(server) && ReceiptsGenuine(w.stored, server)
    ensures Inv(w.(server := server))
  {
    hide ServerHolds, EditsAccounted, IsPending, ReceiptsGenuine, Genuine, AllGenuine;
    forall e: Entry
      ensures Receipted(w.server, e) ==> Receipted(server, e)
    {
    }
    hide Receipted;
    assert FlushesHold(w.stored, server, w.tabs);
  }

  lemma ServeHolds(w: World, request: Entry)
    requires Inv(w) && request in w.requests
    ensures Inv(After(w, Serve(request))) && ServerGrows(w.server, Served(w.server, request).0)
  {
    hide NothingLost, FlushesHold, EditsAccounted, ServerHolds, ServerGrows, Served, AllGenuine;
    ServedHolds(w.server, request);
    ServedGenuine(w.stored, w.server, request);
    assert Genuine(w.stored, request);
    GrowthKeeps(w, Served(w.server, request).0);
  }

  lemma ServedGenuine(stored: map<Batch, set<Op>>, s: Server, request: Entry)
    requires ReceiptsGenuine(stored, s) && ServerHolds(s)
    ensures Genuine(stored, request) || request.id !in stored ==> ReceiptsGenuine(stored, Served(s, request).0)
    ensures Genuine(stored, request) ==> Served(s, request).1.Persisted?
    ensures var (server, reply) := Served(s, request);
      reply.Persisted? ==> reply.id in server.receipts && server.receipts[reply.id].revision == reply.revision
  {
  }

  /** A batch enters the pending store and is stored from then on. */
  lemma PutHolds(w: World, t: TabId, id: Batch)
    requires Inv(w) && Enabled(w, PutDone(t, id))
    ensures Inv(After(w, PutDone(t, id)))
  {
    hide ServerHolds, QueuedOps, StoredOps, Receipted;
    var queued := w.tabs[t].queued;
    var stored := w.stored[id := queued[0]];
    var after := After(w, PutDone(t, id));
    PutKeepsEdits(w, t, id);
    hide EditsAccounted;
    forall e: Entry
      ensures Genuine(w.stored, e) ==> Genuine(stored, e)
    {
    }
    PutIsPending(w.pending, Entry(id, queued[0]));
    hide IsPending, Genuine;
    assert FlushesHold(stored, w.server, after.tabs);
  }

  lemma PutKeepsEdits(w: World, t: TabId, id: Batch)
    requires EditsAccounted(w.stored, w.tabs, w.edited, w.dropped) && Enabled(w, PutDone(t, id))
    ensures var after := After(w, PutDone(t, id));
      EditsAccounted(after.stored, after.tabs, after.edited, after.dropped)
  {
    hide QueuedOps, StoredOps;
    QueueSplits(w.tabs[t].queued);
    StoreGrows(w.stored, id, w.tabs[t].queued[0]);
  }

  lemma PutIsPending(pending: seq<Entry>, e: Entry)
    ensures IsPending(pending + [e], e.id)
    ensures forall id :: IsPending(pending, id) ==> IsPending(pending + [e], id)
  {
    var more := pending + [e];
    assert more[|pending|] == e;
    forall id | IsPending(pending, id)
      ensures IsPending(more, id)
    {
      var i :| 0 <= i < |pending| && pending[i].id == id;
      assert more[i].id == id;
    }
  }

  /** Only what has a receipt leaves the pending store. */
  lemma PendingShrinks(w: World, acked: Entry)
    requires Inv(w) && Receipted(w.server, acked) && Genuine(w.stored, acked)
    ensures Inv(w.(pending := WithoutBatch(w.pending, acked.id)))
  {
    hide ServerHolds, FlushesHold, EditsAccounted, RepliesAgree, RequestsGenuine, ReceiptsGenuine, Receipted;
    var pending := WithoutBatch(w.pending, acked.id);
    WithoutKeeps(w.pending, acked.id);
    forall id | id in w.stored && id != acked.id && IsPending(w.pending, id)
      ensures IsPending(pending, id)
    {
      var i :| 0 <= i < |w.pending| && w.pending[i].id == id;
      assert w.pending[i] in pending;
    }
    forall i | 0 <= i < |pending|
      ensures Genuine(w.stored, pending[i])
    {
      assert pending[i] in w.pending;
    }
  }

  lemma TabStepHolds(w: World, t: TabId, tab: Tab)
    requires Inv(w) && t in w.tabs
    requires tab.queued == w.tabs[t].queued && FlushHolds(w.stored, w.server, tab.flush)
    ensures Inv(w.(tabs := w.tabs[t := tab]))
  {
    hide ServerHolds, NothingLost, AllGenuine, RequestsGenuine, ReceiptsGenuine, RepliesAgree, FlushHolds, Accounted,
      QueuedOps, StoredOps;
  }

  lemma ReceiptHolds(w: World, t: TabId, revision: nat)
    requires Inv(w) && Enabled(w, ReceiptArrives(t, revision))
    ensures Inv(After(w, ReceiptArrives(t, revision)))
  {
    hide NothingLost, EditsAccounted, RequestsGenuine, ServerHolds, Receipted, Genuine;
    var flush := w.tabs[t].flush;
    var acked := flush.list[flush.next];
    assert FlushHolds(w.stored, w.server, flush);
    AckedIsReceipted(w, acked, revision);
    PendingShrinks(w, acked);
    TabStepHolds(w.(pending := WithoutBatch(w.pending, acked.id)), t, ReceiptTaken(w.tabs[t]));
  }

  lemma AckedIsReceipted(w: World, acked: Entry, revision: nat)
    requires ServerHolds(w.server) && RepliesAgree(w.replies, w.server) && ReceiptsGenuine(w.stored, w.server)
    requires Genuine(w.stored, acked) && Persisted(acked.id, revision) in w.replies
    ensures Receipted(w.server, acked)
  {
    KnownIsReceipted(w.server, acked.id);
  }

  lemma OpenHolds(w: World, t: TabId)
    requires Inv(w) && t !in w.edited
    ensures Inv(After(w, Open(t)))
  {
    hide ServerHolds, NothingLost, AllGenuine, RequestsGenuine, ReceiptsGenuine, RepliesAgree, PendingOps;
    assert QueuedOps([]) == {};
  }

  lemma CloseHolds(w: World, t: TabId)
    requires Inv(w) && Enabled(w, Close(t))
    ensures Inv(After(w, Close(t)))
  {
    hide ServerHolds, NothingLost, AllGenuine, RequestsGenuine, ReceiptsGenuine, RepliesAgree, FlushHolds, Accounted;
  }

  lemma EditHolds(w: World, t: TabId, bytes: set<Op>)
    requires Inv(w) && t in w.tabs
    ensures Inv(After(w, Edit(t, bytes)))
  {
    hide ServerHolds, NothingLost, AllGenuine, RequestsGenuine, ReceiptsGenuine, RepliesAgree, FlushHolds,
      QueuedOps, StoredOps;
    QueueGrows(w.tabs[t].queued, bytes);
  }

  lemma DropHolds(w: World, t: TabId)
    requires Inv(w) && Enabled(w, PutFails(t))
    ensures Inv(After(w, PutFails(t)))
  {
    hide ServerHolds, NothingLost, AllGenuine, RequestsGenuine, ReceiptsGenuine, RepliesAgree, FlushHolds,
      QueuedOps, StoredOps;
    QueueSplits(w.tabs[t].queued);
  }

  lemma SendHolds(w: World, t: TabId)
    requires Inv(w) && Enabled(w, Send(t))
    ensures Inv(After(w, Send(t)))
  {
    hide ServerHolds, NothingLost, ReceiptsGenuine, RepliesAgree, EditsAccounted, Genuine;
    assert FlushHolds(w.stored, w.server, w.tabs[t].flush);
  }

  lemma StateHolds(w: World, t: TabId)
    requires Inv(w) && Enabled(w, StateArrives(t))
    ensures FlushHolds(w.stored, w.server, Loaded(w.tabs[t].flush.list, w.server.merged))
  {
    hide ServerHolds, NothingLost, ReceiptsGenuine, RepliesAgree, EditsAccounted, Genuine;
    var flush := w.tabs[t].flush;
    assert FlushHolds(w.stored, w.server, flush);
    forall i | 0 <= i < |flush.list|
      ensures flush.list[i].bytes <= w.server.merged
    {
      assert Receipted(w.server, flush.list[i]);
    }
  }

  lemma OthersHold(w: World, request: Entry)
    requires Inv(w) && request.id !in w.stored
    ensures Inv(w.(server := Served(w.server, request).0)) && ServerGrows(w.server, Served(w.server, request).0)
  {
    hide NothingLost, FlushesHold, EditsAccounted, ServerHolds, ServerGrows, Served, RepliesAgree, AllGenuine;
    ServedHolds(w.server, request);
    ServedGenuine(w.stored, w.server, request);
    GrowthKeeps(w, Served(w.server, request).0);
  }

  lemma AppendKeepsServer(s: Server, bytes: set<Op>)
    requires ServerHolds(s)
    ensures ServerHolds(s.(merged := s.merged + bytes, revision := s.revision + 1))
    ensures ServerGrows(s, s.(merged := s.merged + bytes, revision := s.revision + 1))
  {
    var after := s.(merged := s.merged + bytes, revision := s.revision + 1);
    forall i | 0 <= i < |s.log|
      ensures Receipted(after, s.log[i])
    {
      ReceiptedGrows(s, after, s.log[i]);
    }
  }

  lemma AppendHolds(w: World, bytes: set<Op>)
    requires Inv(w)
    ensures Inv(After(w, OthersAppend(bytes))) && ServerGrows(w.server, After(w, OthersAppend(bytes)).server)
  {
    hide NothingLost, FlushesHold, EditsAccounted, ServerHolds, ServerGrows, RepliesAgree, AllGenuine;
    AppendKeepsServer(w.server, bytes);
    GrowthKeeps(w, w.server.(merged := w.server.merged + bytes, revision := w.server.revision + 1));
  }

  lemma FlushOf(w: World, t: TabId)
    requires Inv(w) && t in w.tabs
    ensures FlushHolds(w.stored, w.server, w.tabs[t].flush) && AllGenuine(w.stored, w.pending)
  {
  }

  lemma SameServerGrows(s: Server)
    ensures ServerGrows(s, s)
  {
  }

  /** Every step keeps the invariant, and receipts only accumulate. */
  lemma StepHolds(w: World, action: Action)
    requires Inv(w) && Enabled(w, action)
    ensures Inv(After(w, action)) && ServerGrows(w.server, After(w, action).server)
  {
    hide Inv, ServerGrows, Served;
    SameServerGrows(w.server);
    match action
    case Open(t) => OpenHolds(w, t);
    case Close(t) => CloseHolds(w, t);
    case Edit(t, bytes) => EditHolds(w, t, bytes);
    case PutDone(t, id) => PutHolds(w, t, id);
    case PutFails(t) => DropHolds(w, t);
    case FlushBegins(t) =>
      FlushOf(w, t);
      TabStepHolds(w, t, FlushBegun(w.tabs[t], w.pending));
    case Send(t) => SendHolds(w, t);
    case Serve(request) => ServeHolds(w, request);
    case ReceiptArrives(t, revision) => ReceiptHolds(w, t, revision);
    case StateArrives(t) =>
      StateHolds(w, t);
      TabStepHolds(w, t, StateTaken(w.tabs[t], w.server.merged));
    case FlushEnds(t) => TabStepHolds(w, t, FlushEnded(w.tabs[t], w.pending));
    case FlushFails(t) => TabStepHolds(w, t, FlushFailed(w.tabs[t]));
    case OthersPersist(request) => OthersHold(w, request);
    case OthersAppend(bytes) => AppendHolds(w, bytes);
  }

  // ---------- whole runs ----------

  lemma StartHolds()
    ensures Inv(Start())
  {
  }

  lemma {:induction false} RunHolds(states: seq<World>, i: nat)
    requires Run(states) && i < |states|
    ensures Inv(states[i])
  {
    hide Inv, Enabled, After;
    StartHolds();
    if i > 0 {
      RunHolds(states, i - 1);
      assert Next(states[i - 1], states[i]);
      var action :| Enabled(states[i - 1], action) && states[i] == After(states[i - 1], action);
      StepHolds(states[i - 1], action);
    }
  }

  lemma {:induction false} RunGrows(states: seq<World>, i: nat, j: nat)
    requires Run(states) && i <= j < |states|
    ensures ServerGrows(states[i].server, states[j].server)
  {
    hide Inv, Enabled, After;
    if i < j {
      RunGrows(states, i, j - 1);
      RunHolds(states, j - 1);
      assert Next(states[j - 1], states[j]);
      var action :| Enabled(states[j - 1], action) && states[j] == After(states[j - 1], action);
      StepHolds(states[j - 1], action);
    }
  }

  /**
   In every reachable state: what was stored is pending or has a receipt for its
   bytes, every batch with a receipt was appended exactly once, no batch is refused.
   */
  lemma NoUpdateIsLost(states: seq<World>, i: nat)
    requires Run(states) && i < |states|
    ensures var w := states[i];
      && (forall id :: id in w.stored ==> IsPending(w.pending, id) || Receipted(w.server, Entry(id, w.stored[id])))
      && (forall id :: id in w.server.receipts <==> exists k :: 0 <= k < |w.server.log| && w.server.log[k].id == id)
      && (forall k, l :: 0 <= k < l < |w.server.log| ==> w.server.log[k].id != w.server.log[l].id)
      && (forall r :: r in w.replies ==> r.Persisted?)
  {
    RunHolds(states, i);
    var w := states[i];
    forall id
      ensures id in w.server.receipts <==> exists k :: 0 <= k < |w.server.log| && w.server.log[k].id == id
    {
      if k :| 0 <= k < |w.server.log| && w.server.log[k].id == id {
        assert Receipted(w.server, w.server.log[k]);
      }
    }
  }

  /** However often a batch is answered, and whenever, the revision is the same. */
  lemma RepliesCarryOneRevision(states: seq<World>, i: nat, j: nat, id: Batch, r: nat, q: nat)
    requires Run(states) && i <= j < |states|
    requires Persisted(id, r) in states[i].replies && Persisted(id, q) in states[j].replies
    ensures r == q
  {
    RunHolds(states, i);
    RunHolds(states, j);
    RunGrows(states, i, j);
    assert states[i].server.receipts[id].revision == r;
    assert states[j].server.receipts[id].revision == q;
  }

  // ---------- each edit is stored once, in order ----------

  ghost predicate Trace(states: seq<World>, actions: seq<Action>) {
    && |states| == |actions| + 1 && states[0] == Start()
    && forall i :: 0 <= i < |actions| ==> Enabled(states[i], actions[i]) && states[i + 1] == After(states[i], actions[i])
  }

  /** What a tab edited, one after the other. */
  function EditsOf(actions: seq<Action>, t: TabId): seq<set<Op>> {
    if actions == [] then []
    else
      var n := |actions| - 1;
      EditsOf(actions[..n], t) + EditIn(actions[n], t)
  }

  function EditIn(action: Action, t: TabId): seq<set<Op>> {
    match action { case Edit(u, bytes) => if u == t then [bytes] else [] case _ => [] }
  }

  datatype Put = Stored(id: Batch) | Failed

  /** How the puts of a tab ended, one after the other. */
  function PutsOf(actions: seq<Action>, t: TabId): seq<Put> {
    if actions == [] then []
    else
      var n := |actions| - 1;
      PutsOf(actions[..n], t) + PutIn(actions[n], t)
  }

  function PutIn(action: Action, t: TabId): seq<Put> {
    match action
    case PutDone(u, id) => if u == t then [Stored(id)] else []
    case PutFails(u) => if u == t then [Failed] else []
    case _ => []
  }

  /** The puts settle the edits in order, the rest is queued, and a stored edit is under its own batch. */
  ghost predicate InOrderFor(w: World, edits: seq<set<Op>>, puts: seq<Put>, t: TabId) {
    && |puts| <= |edits|
    && (t in w.tabs ==> w.tabs[t].queued == edits[|puts|..])
    && (t !in w.edited ==> edits == [] && t !in w.tabs)
    && forall k :: 0 <= k < |puts| && puts[k].Stored? ==> puts[k].id in w.stored && w.stored[puts[k].id] == edits[k]
  }

  /** A tab's queue grows by what it edits and is settled from the front; batches keep their bytes. */
  lemma QueueStep(w: World, action: Action, t: TabId)
    requires Enabled(w, action) && (t in w.tabs ==> t in w.edited)
    ensures var after := After(w, action);
      && (forall id :: id in w.stored ==> id in after.stored && after.stored[id] == w.stored[id])
      && (t in w.edited || EditIn(action, t) != [] || PutIn(action, t) != [] ==> t in after.edited)
      && (EditIn(action, t) != [] || PutIn(action, t) != [] ==> t in w.tabs)
      && (t in after.tabs ==> t in after.edited)
      && (t in after.tabs && t !in w.tabs ==> t !in w.edited && after.tabs[t].queued == [])
      && (t in after.tabs && t in w.tabs ==>
            |PutIn(action, t)| <= |w.tabs[t].queued|
            && after.tabs[t].queued == w.tabs[t].queued[|PutIn(action, t)|..] + EditIn(action, t))
  {
    hide Served, PendingOps, WithoutBatch;
  }

  lemma OrderStep(w: World, action: Action, edits: seq<set<Op>>, puts: seq<Put>, t: TabId)
    requires Enabled(w, action) && InOrderFor(w, edits, puts, t)
    ensures InOrderFor(After(w, action), edits + EditIn(action, t), puts + PutIn(action, t), t)
  {
    QueueStep(w, action, t);
    var after, moreEdits, morePuts := After(w, action), edits + EditIn(action, t), puts + PutIn(action, t);
    if PutIn(action, t) != [] {
      PutStep(w, action, edits, puts, t);
    }
    hide After, Enabled, EditIn, PutIn;
    if t in w.tabs && t in after.tabs {
      RestGrows(edits, EditIn(action, t), |puts|, |PutIn(action, t)|);
    }
    forall k | 0 <= k < |morePuts| && morePuts[k].Stored?
      ensures k < |moreEdits| && morePuts[k].id in after.stored && after.stored[morePuts[k].id] == moreEdits[k]
    {
      if k < |puts| {
        assert morePuts[k] == puts[k] && moreEdits[k] == edits[k];
      }
    }
  }

  lemma RestGrows(edits: seq<set<Op>>, more: seq<set<Op>>, n: nat, p: nat)
    requires n + p <= |edits|
    ensures (edits + more)[n + p..] == edits[n..][p..] + more
  {
  }

  lemma PutStep(w: World, action: Action, edits: seq<set<Op>>, puts: seq<Put>, t: TabId)
    requires Enabled(w, action) && InOrderFor(w, edits, puts, t) && PutIn(action, t) != []
    ensures |puts| < |edits| && t in After(w, action).tabs && |PutIn(action, t)| == 1 && EditIn(action, t) == []
    ensures PutIn(action, t)[0].Stored? ==>
      var id := PutIn(action, t)[0].id;
      id in After(w, action).stored && After(w, action).stored[id] == edits[|puts|]
  {
  }

  lemma {:induction false} TraceIsInOrder(states: seq<World>, actions: seq<Action>, i: nat, t: TabId)
    requires Trace(states, actions) && i < |states|
    ensures InOrderFor(states[i], EditsOf(actions[..i], t), PutsOf(actions[..i], t), t)
  {
    hide Enabled, After;
    if i > 0 {
      TraceIsInOrder(states, actions, i - 1, t);
      OrderStep(states[i - 1], actions[i - 1], EditsOf(actions[..i - 1], t), PutsOf(actions[..i - 1], t), t);
      assert actions[..i][..i - 1] == actions[..i - 1];
    } else {
      assert InOrderFor(Start(), [], [], t);
    }
  }

  /** Two puts never share a batch, of one tab or of two. */
  lemma {:induction false} PutsAreApart(states: seq<World>, actions: seq<Action>, i: nat, t: TabId, u: TabId, k: nat, l: nat)
    requires Trace(states, actions) && i < |states|
    requires k < |PutsOf(actions[..i], t)| && l < |PutsOf(actions[..i], u)|
    requires PutsOf(actions[..i], t)[k].Stored? && PutsOf(actions[..i], t)[k] == PutsOf(actions[..i], u)[l]
    ensures t == u && k == l
  {
    if i > 0 {
      TraceIsInOrder(states, actions, i - 1, t);
      TraceIsInOrder(states, actions, i - 1, u);
      PutsSplit(actions, i, t);
      PutsSplit(actions, i, u);
      FreshPut(states[i - 1], actions[i - 1], t, u);
      FreshPut(states[i - 1], actions[i - 1], u, t);
      var ofT, ofU := PutsOf(actions[..i - 1], t), PutsOf(actions[..i - 1], u);
      StoredBatches(states[i - 1], EditsOf(actions[..i - 1], t), ofT, t);
      StoredBatches(states[i - 1], EditsOf(actions[..i - 1], u), ofU, u);
      hide After, Enabled, InOrderFor, PutsOf, EditsOf, PutIn;
      ApartStep(ofT, PutIn(actions[i - 1], t), ofU, PutIn(actions[i - 1], u), states[i - 1].stored.Keys, t, u, k, l);
      if k < |ofT| && l < |ofU| {
        PutsAreApart(states, actions, i - 1, t, u, k, l);
      }
    }
  }

  lemma StoredBatches(w: World, edits: seq<set<Op>>, puts: seq<Put>, t: TabId)
    requires InOrderFor(w, edits, puts, t)
    ensures forall k :: 0 <= k < |puts| && puts[k].Stored? ==> puts[k].id in w.stored.Keys
  {
  }

  lemma ApartStep(ofT: seq<Put>, newT: seq<Put>, ofU: seq<Put>, newU: seq<Put>, stored: set<Batch>,
                  t: TabId, u: TabId, k: nat, l: nat)
    requires |newT| <= 1 && |newU| <= 1 && (newT != [] && newU != [] ==> t == u) && (t == u ==> ofT == ofU)
    requires forall k :: 0 <= k < |ofT| && ofT[k].Stored? ==> ofT[k].id in stored
    requires forall l :: 0 <= l < |ofU| && ofU[l].Stored? ==> ofU[l].id in stored
    requires newT != [] && newT[0].Stored? ==> newT[0].id !in stored
    requires newU != [] && newU[0].Stored? ==> newU[0].id !in stored
    requires k < |ofT + newT| && l < |ofU + newU| && (ofT + newT)[k].Stored? && (ofT + newT)[k] == (ofU + newU)[l]
    ensures (k < |ofT| && l < |ofU|) || (t == u && k == l)
  {
  }

  lemma PutsSplit(actions: seq<Action>, i: nat, t: TabId)
    requires 0 < i <= |actions|
    ensures PutsOf(actions[..i], t) == PutsOf(actions[..i - 1], t) + PutIn(actions[i - 1], t)
  {
    assert actions[..i][..i - 1] == actions[..i - 1];
  }

  /** One put at a time, under a batch that was not there. */
  lemma FreshPut(w: World, action: Action, t: TabId, u: TabId)
    requires Enabled(w, action)
    ensures |PutIn(action, t)| <= 1 && (PutIn(action, t) != [] && PutIn(action, u) != [] ==> t == u)
    ensures PutIn(action, t) != [] && PutIn(action, t)[0].Stored? ==> PutIn(action, t)[0].id !in w.stored
  {
  }

  /** No two pending entries are of one batch. */
  ghost predicate PendingIsDistinct(pending: seq<Entry>) {
    forall i, j :: 0 <= i < j < |pending| ==> pending[i].id != pending[j].id
  }

  lemma {:induction false} WithoutIsDistinct(pending: seq<Entry>, id: Batch)
    requires PendingIsDistinct(pending)
    ensures PendingIsDistinct(WithoutBatch(pending, id))
  {
    if pending != [] {
      WithoutIsDistinct(pending[1..], id);
      WithoutKeeps(pending[1..], id);
      if pending[0].id != id {
        forall e | e in WithoutBatch(pending[1..], id)
          ensures e.id != pending[0].id
        {
          var i :| 0 <= i < |pending[1..]| && pending[1..][i] == e;
          assert pending[i + 1] == e;
        }
      }
    }
  }

  lemma {:induction false} PendingStaysDistinct(states: seq<World>, actions: seq<Action>, i: nat)
    requires Trace(states, actions) && i < |states|
    ensures Inv(states[i]) && PendingIsDistinct(states[i].pending)
  {
    hide Inv, Enabled, After;
    if i > 0 {
      PendingStaysDistinct(states, actions, i - 1);
      StepHolds(states[i - 1], actions[i - 1]);
      PendingStep(states[i - 1], actions[i - 1]);
    } else {
      StartHolds();
    }
  }

  lemma FreshIsNotPending(w: World, id: Batch)
    requires Inv(w) && id !in w.stored
    ensures forall i :: 0 <= i < |w.pending| ==> w.pending[i].id != id
  {
    forall i | 0 <= i < |w.pending|
      ensures w.pending[i].id != id
    {
      assert Genuine(w.stored, w.pending[i]);
    }
  }

  lemma PendingStep(w: World, action: Action)
    requires Inv(w) && Enabled(w, action) && PendingIsDistinct(w.pending)
    ensures PendingIsDistinct(After(w, action).pending)
  {
    hide Inv, Served, PendingOps, WithoutBatch;
    match action
    case PutDone(t, id) => FreshIsNotPending(w, id);
    case ReceiptArrives(t, revision) => WithoutIsDistinct(w.pending, AwaitedBatch(w.tabs[t]));
    case _ =>
  }

  /**
   A tab's edits are, in order, those its puts have settled and those still queued;
   each put settles one edit, a stored one under a batch of its own, and pending
   entries are of different batches. So no edit is stored twice.
   */
  lemma EachEditIsStoredOnce(states: seq<World>, actions: seq<Action>, t: TabId)
    requires Trace(states, actions)
    ensures var w, edits, puts := states[|actions|], EditsOf(actions, t), PutsOf(actions, t);
      && |puts| <= |edits|
      && (t in w.tabs ==> w.tabs[t].queued == edits[|puts|..])
      && (forall k :: 0 <= k < |puts| && puts[k].Stored? ==> puts[k].id in w.stored && w.stored[puts[k].id] == edits[k])
      && (forall k, l :: 0 <= k < l < |puts| && puts[k].Stored? ==> puts[k] != puts[l])
      && (forall i, j :: 0 <= i < j < |w.pending| ==> w.pending[i].id != w.pending[j].id)
  {
    hide Enabled, After, Inv;
    assert actions[..|actions|] == actions;
    TraceIsInOrder(states, actions, |actions|, t);
    PendingStaysDistinct(states, actions, |actions|);
    var puts := PutsOf(actions, t);
    forall k, l | 0 <= k < l < |puts| && puts[k].Stored?
      ensures puts[k] != puts[l]
    {
      if puts[k] == puts[l] {
        PutsAreApart(states, actions, |actions|, t, t, k, l);
      }
    }
  }

  // ---------- what the status line promises ----------

  /**
   When a flush ends with nothing pending, the tab says "Saved on server". That is
   true of everything the tab produced exactly when it is true of what still waits
   in the tab's put queue and of what the tab failed to store.
   */
  lemma SavedOnServerMeans(w: World, t: TabId)
    requires Inv(w) && Enabled(w, FlushEnds(t)) && w.pending == []
    ensures After(w, FlushEnds(t)).tabs[t].status == SavedOnServer
    ensures w.edited[t] <= w.server.merged <==> QueuedOps(w.tabs[t].queued) + w.dropped[t] <= w.server.merged
    ensures forall id :: id in w.stored ==> Receipted(w.server, Entry(id, w.stored[id]))
  {
    forall id | id in w.stored
      ensures Receipted(w.server, Entry(id, w.stored[id]))
    {
      assert !IsPending(w.pending, id);
    }
    forall op | op in StoredOps(w.stored)
      ensures op in w.server.merged
    {
      var id :| id in w.stored && op in w.stored[id];
      assert Receipted(w.server, Entry(id, w.stored[id]));
    }
  }

  /** A tab whose storage never failed has dropped nothing. */
  ghost predicate UnfailedKeeps(w: World) {
    forall t :: t in w.tabs && !w.tabs[t].failed ==> t in w.dropped && w.dropped[t] == {}
  }

  lemma UnfailedKeepsStep(w: World, action: Action)
    requires UnfailedKeeps(w) && Enabled(w, action)
    ensures UnfailedKeeps(After(w, action))
  {
    hide Served, PendingOps, WithoutBatch;
  }

  lemma {:induction false} UnfailedKeepsAlways(states: seq<World>, i: nat)
    requires Run(states) && i < |states|
    ensures UnfailedKeeps(states[i])
  {
    hide Enabled, After;
    if i > 0 {
      UnfailedKeepsAlways(states, i - 1);
      assert Next(states[i - 1], states[i]);
      var action :| Enabled(states[i - 1], action) && states[i] == After(states[i - 1], action);
      UnfailedKeepsStep(states[i - 1], action);
    }
  }

  /**
   What the tab can check itself: "Saved on server" is true of everything it
   produced when nothing waits in its put queue and its storage never failed.
   */
  lemma SavedOnServerWhenQuiet(states: seq<World>, i: nat, t: TabId)
    requires Run(states) && i < |states| && Enabled(states[i], FlushEnds(t)) && states[i].pending == []
    requires states[i].tabs[t].queued == [] && !states[i].tabs[t].failed
    ensures After(states[i], FlushEnds(t)).tabs[t].status == SavedOnServer
    ensures t in states[i].edited && states[i].edited[t] <= states[i].server.merged
  {
    RunHolds(states, i);
    UnfailedKeepsAlways(states, i);
    hide Run, Next;
    SavedOnServerMeans(states[i], t);
    assert QueuedOps([]) == {};
  }

  /** An edit made while the loaded state is on its way is announced as saved although it is still queued. */
  lemma SavedCanBeEarly(t: TabId, op: Op) returns (w: World)
    ensures exists states :: Run(states) && w == states[|states| - 1]
    ensures t in w.tabs && w.tabs[t].status == SavedOnServer && t in w.edited && op in w.edited[t] && op !in w.server.merged
  {
    var s1, s2, s3 := FlushOfNothing(t);
    var s4 := After(s3, Edit(t, {op}));
    w := After(s4, FlushEnds(t));
    assert Next(s3, s4) && Next(s4, w);
    hide After, Enabled, Next;
    RunOf6(Start(), s1, s2, s3, s4, w);
  }

  /** A tab opens with nothing pending, and its flush waits for the server's state. */
  lemma FlushOfNothing(t: TabId) returns (s1: World, s2: World, s3: World)
    ensures Next(Start(), s1) && Next(s1, s2) && Next(s2, s3)
    ensures t in s3.tabs && s3.tabs[t] == Tab({}, [], false, Loaded([], {}), Opened)
    ensures s3 == Start().(tabs := s3.tabs, edited := map[t := {}], dropped := map[t := {}])
  {
    assert PendingOps([]) == {};
    hide PendingOps;
    s1 := After(Start(), Open(t));
    assert Next(Start(), s1);
    s2 := After(s1, FlushBegins(t));
    assert Next(s1, s2);
    s3 := After(s2, StateArrives(t));
    assert Next(s2, s3);
  }

  lemma RunOf6(s0: World, s1: World, s2: World, s3: World, s4: World, s5: World)
    requires s0 == Start() && Next(s0, s1) && Next(s1, s2) && Next(s2, s3) && Next(s3, s4) && Next(s4, s5)
    ensures exists states :: Run(states) && s5 == states[|states| - 1]
  {
    hide Next;
    var states := [s0, s1, s2, s3, s4, s5];
    assert forall i :: 0 < i < |states| ==> Next(states[i - 1], states[i]);
    assert Run(states);
  }

  /** A flush that ends has brought everything it sent back into the document. */
  lemma FlushShowsWhatItSent(w: World, t: TabId, i: nat)
    requires Inv(w) && Enabled(w, FlushEnds(t)) && i < |w.tabs[t].flush.list|
    ensures w.tabs[t].flush.list[i].bytes <= After(w, FlushEnds(t)).tabs[t].doc
  {
    assert FlushHolds(w.stored, w.server, w.tabs[t].flush);
  }

  /** Reopening a tab brings every pending update back. */
  lemma ReopeningReplaysPending(w: World, t: TabId, i: nat)
    requires Enabled(w, Open(t)) && i < |w.pending|
    ensures w.pending[i].bytes <= After(w, Open(t)).tabs[t].doc
  {
    assert w.pending[i] in w.pending;
  }

  // ---------- nothing waits for ever ----------

  /** The batch that a flush waits for can always be sent, answered and dropped, and then the next one is due. */
  lemma AwaitedCanSettle(w: World, t: TabId) returns (revision: nat)
    requires Inv(w) && t in w.tabs && AwaitsReceipt(w.tabs[t])
    ensures var e := w.tabs[t].flush.list[w.tabs[t].flush.next];
      && Enabled(w, Send(t)) && Enabled(After(w, Send(t)), Serve(e))
      && var served := After(After(w, Send(t)), Serve(e));
      && Enabled(served, ReceiptArrives(t, revision))
      && var settled := After(served, ReceiptArrives(t, revision));
      && !IsPending(settled.pending, e.id) && Receipted(settled.server, e)
      && t in settled.tabs && settled.tabs[t].flush == Sending(w.tabs[t].flush.list, w.tabs[t].flush.next + 1)
  {
    var e := w.tabs[t].flush.list[w.tabs[t].flush.next];
    revision := ReplyToAwaited(w, t);
    hide Inv, Served, IsPending, Receipted;
    SendIs(w, t);
    var sent := After(w, Send(t));
    ServeIs(sent, e);
    var served := After(sent, Serve(e));
    ReceiptIs(served, t, revision);
    hide After, Enabled;
    BatchLeaves(served.pending, e.id);
  }

  lemma ReplyToAwaited(w: World, t: TabId) returns (revision: nat)
    requires Inv(w) && t in w.tabs && AwaitsReceipt(w.tabs[t])
    ensures var e := w.tabs[t].flush.list[w.tabs[t].flush.next];
      Served(w.server, e).1 == Persisted(e.id, revision) && Receipted(Served(w.server, e).0, e)
  {
    var e := w.tabs[t].flush.list[w.tabs[t].flush.next];
    assert Genuine(w.stored, e) by {
      assert FlushHolds(w.stored, w.server, w.tabs[t].flush);
    }
    ServedHolds(w.server, e);
    ServedGenuine(w.stored, w.server, e);
    revision := Served(w.server, e).1.revision;
  }

  lemma SendIs(w: World, t: TabId)
    requires t in w.tabs && AwaitsReceipt(w.tabs[t])
    ensures Enabled(w, Send(t))
    ensures After(w, Send(t)) == w.(requests := w.requests + {w.tabs[t].flush.list[w.tabs[t].flush.next]})
  {
  }

  lemma ServeIs(w: World, request: Entry)
    requires request in w.requests
    ensures Enabled(w, Serve(request))
    ensures var (server, reply) := Served(w.server, request);
      After(w, Serve(request)) == w.(server := server, replies := w.replies + {reply})
  {
  }

  lemma ReceiptIs(w: World, t: TabId, revision: nat)
    requires t in w.tabs && AwaitsReceipt(w.tabs[t]) && Persisted(AwaitedBatch(w.tabs[t]), revision) in w.replies
    ensures Enabled(w, ReceiptArrives(t, revision))
    ensures var flush := w.tabs[t].flush;
      After(w, ReceiptArrives(t, revision))
        == w.(tabs := w.tabs[t := w.tabs[t].(flush := Sending(flush.list, flush.next + 1))],
              pending := WithoutBatch(w.pending, flush.list[flush.next].id))
  {
  }

  lemma BatchLeaves(pending: seq<Entry>, id: Batch)
    ensures !IsPending(WithoutBatch(pending, id), id)
  {
    WithoutKeeps(pending, id);
  }
}
