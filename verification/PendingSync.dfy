/**
 The server's receipt table, the device's pending store and the tab that syncs a
 document between them. Every method keeps the invariant of the protocol in
 `Receipts`, on the world of this tab, its store and its server.
 */
module PendingSync {
  import opened Collections
  import opened Updates
  import opened Receipts

  class ReceiptServer {
    var receipts: map<Batch, Receipt>
    var revision: nat
    var merged: set<Op>
    ghost var log: seq<Entry>

    ghost function State(): Server
      reads this
    {
      Server(receipts, log, merged, revision)
    }

    /** The receipts are the log: each batch once, in order of revision, all of it merged. */
    ghost predicate Valid()
      reads this
    {
      ServerHolds(State())
    }

    constructor ()
      ensures Valid() && State() == Start().server
    {
      receipts, revision, log, merged := map[], 0, [], {};
    }

    /**
     One transaction under the batch lock. A receipt once given never changes and
     its bytes stay merged; a batch is logged once; only other bytes under a known
     identity are refused, and then nothing happens.
     */
    method PersistDocumentUpdate(request: Entry) returns (reply: Reply)
      requires Valid()
      modifies this
      ensures Valid() && ServerGrows(old(State()), State())
      ensures (State(), reply) == Served(old(State()), request)
      ensures reply.Persisted? ==> Receipted(State(), request) && reply == Persisted(request.id, receipts[request.id].revision)
      ensures reply.Conflict? <==> request.id in old(receipts) && old(receipts)[request.id].bytes != request.bytes
      ensures if request.id in old(receipts) then State() == old(State()) else log == old(log) + [request]
      ensures request.id !in old(receipts) ==>
        && revision == old(revision) + 1 && merged == old(merged) + request.bytes
        && receipts == old(receipts)[request.id := Receipt(request.bytes, revision)]
    {
      ServedHolds(State(), request);
      if request.id in receipts {
        var prior := receipts[request.id];
        if prior.bytes != request.bytes {
          return Conflict(request.id);
        }
        return Persisted(request.id, prior.revision);
      }
      revision := revision + 1;
      log := log + [request];
      merged := merged + request.bytes;
      receipts := receipts[request.id := Receipt(request.bytes, revision)];
      reply := Persisted(request.id, revision);
    }

    method GetDocumentState() returns (state: set<Op>)
      requires Valid()
      ensures state == merged && forall i :: 0 <= i < |log| ==> log[i].bytes <= state
    {
      forall i | 0 <= i < |log|
        ensures log[i].bytes <= merged
      {
        assert Receipted(State(), log[i]);
      }
      state := merged;
    }
  }

  /** The device's table of updates without a receipt; `stored` is all that was ever put there. */
  class PendingStore {
    var entries: seq<Entry>
    ghost var stored: map<Batch, set<Op>>

    constructor ()
      ensures entries == [] && stored == map[]
    {
      entries, stored := [], map[];
    }
  }

  /** Device and server while no tab is open. */
  ghost function DeviceWorld(store: PendingStore, server: ReceiptServer): World
    reads store, server
  {
    World(map[], store.entries, {}, {}, server.State(), store.stored, map[], map[])
  }

  class DocumentSync {
    const store: PendingStore
    const server: ReceiptServer
    ghost const tab: TabId
    var doc: set<Op>
    var queued: seq<set<Op>>
    var storageFailed: bool
    var flush: Receipts.Flush
    var status: Status
    ghost var edited: set<Op>
    ghost var dropped: set<Op>

    ghost function State(): Tab
      reads this
    {
      Tab(doc, queued, storageFailed, flush, status)
    }

    /** This tab with its store and its server. */
    ghost function Around(): World
      reads this, store, server
    {
      World(map[tab := State()], store.entries, {}, {}, server.State(), store.stored,
            map[tab := edited], map[tab := dropped])
    }

    /** What was stored is pending or receipted, and what was edited is queued, stored or dropped. */
    ghost predicate Valid()
      reads this, store, server
    {
      Inv(Around())
    }

    /** Open the document and replay what is pending. */
    constructor (store: PendingStore, server: ReceiptServer, ghost tab: TabId)
      requires Inv(DeviceWorld(store, server))
      ensures Valid() && this.store == store && this.server == server && flush.Idle?
      ensures forall i :: 0 <= i < |store.entries| ==> store.entries[i].bytes <= doc
      ensures forall op :: op in doc ==> exists i :: 0 <= i < |store.entries| && op in store.entries[i].bytes
      ensures queued == [] && edited == dropped == {} && !storageFailed
    {
      this.store, this.server, this.tab := store, server, tab;
      queued, storageFailed, flush, status := [], false, Idle, Opened;
      doc := PendingOps(store.entries);
      edited, dropped := {}, {};
      new;
      ghost var w := DeviceWorld(store, server);
      OpenHolds(w, tab);
      assert Around() == After(w, Open(tab));
      forall i | 0 <= i < |store.entries|
        ensures store.entries[i].bytes <= doc
      {
        ReopeningReplaysPending(w, tab, i);
      }
    }

    /** The edit shows at once and counts as unsaved. */
    method Enqueue(bytes: set<Op>)
      requires Valid()
      modifies this
      ensures Valid() && Around() == After(old(Around()), Edit(tab, bytes))
      ensures doc == old(doc) + bytes && queued == old(queued) + [bytes] && status == SavingLocally
      ensures edited == old(edited) + bytes && dropped == old(dropped)
      ensures flush == old(flush) && storageFailed == old(storageFailed)
    {
      hide Inv;
      ghost var w := Around();
      StepHolds(w, Edit(tab, bytes));
      status := SavingLocally;
      doc := doc + bytes;
      queued := queued + [bytes];
      edited := edited + bytes;
      OneKey(tab, w.tabs[tab], State());
      OneKey(tab, w.edited[tab], edited);
      assert Around() == After(w, Edit(tab, bytes));
    }

    /** The first queued put is over and leaves the queue: its bytes are stored for good, or dropped and the tab knows. */
    method PutSettles(id: Batch, ok: bool)
      requires Valid() && queued != [] && id !in store.stored && id !in server.receipts
      modifies this, store
      ensures Valid()
      ensures Around() == After(old(Around()), if ok then PutDone(tab, id) else PutFails(tab))
      ensures queued == old(queued)[1..] && doc == old(doc) && flush == old(flush) && edited == old(edited)
      ensures ok ==> store.entries == old(store.entries) + [Entry(id, old(queued)[0])]
      ensures ok ==> store.stored == old(store.stored)[id := old(queued)[0]] && dropped == old(dropped)
      ensures ok ==> status == PendingSync && storageFailed == old(storageFailed)
      ensures !ok ==> store.entries == old(store.entries) && store.stored == old(store.stored)
      ensures !ok ==> dropped == old(dropped) + old(queued)[0] && status == StorageError && storageFailed
    {
      hide Inv;
      ghost var w := Around();
      StepHolds(w, if ok then PutDone(tab, id) else PutFails(tab));
      if ok {
        PutIsPending(store.entries, Entry(id, queued[0]));
        store.entries := store.entries + [Entry(id, queued[0])];
        store.stored := store.stored[id := queued[0]];
        status := PendingSync;
      } else {
        dropped := dropped + queued[0];
        storageFailed := true;
        status := StorageError;
      }
      queued := queued[1..];
      OneKey(tab, w.tabs[tab], State());
      OneKey(tab, w.dropped[tab], dropped);
      assert Around() == After(w, if ok then PutDone(tab, id) else PutFails(tab));
    }

    /** A tab whose storage failed does not flush. */
    method FlushBegin()
      requires Valid() && flush.Idle?
      modifies this
      ensures Valid() && Around() == After(old(Around()), FlushBegins(tab))
      ensures flush == if storageFailed then Idle else Sending(store.entries, 0)
      ensures queued == old(queued) && edited == old(edited) && dropped == old(dropped)
      ensures storageFailed == old(storageFailed) && doc == old(doc)
      ensures status == if storageFailed then StorageError else old(status)
    {
      hide Inv;
      ghost var w := Around();
      StepHolds(w, FlushBegins(tab));
      if storageFailed {
        status := StorageError;
      } else {
        flush := Sending(store.entries, 0);
      }
      OneKey(tab, w.tabs[tab], State());
      assert Around() == After(w, FlushBegins(tab));
    }

    /** Only a batch with a receipt for its bytes leaves the store, and only that one. */
    method TakeReceipt()
      requires Valid() && AwaitsReceipt(State()) && AwaitedBatch(State()) in server.receipts
      modifies this, store
      ensures Valid() && store.stored == old(store.stored)
      ensures State() == old(State()).(flush := Sending(old(flush).list, old(flush).next + 1))
      ensures Receipted(server.State(), old(flush).list[old(flush).next])
      ensures forall e :: e in store.entries <==> e in old(store.entries) && e.id != AwaitedBatch(old(State()))
      ensures edited == old(edited) && dropped == old(dropped)
    {
      hide Inv;
      ghost var w, id := Around(), AwaitedBatch(State());
      AwaitedHasReceipt(w, tab);
      ghost var answered := w.(replies := {Persisted(id, server.receipts[id].revision)});
      StepHolds(answered, ReceiptArrives(tab, server.receipts[id].revision));
      WithoutKeeps(store.entries, id);
      store.entries := WithoutBatch(store.entries, flush.list[flush.next].id);
      flush := flush.(next := flush.next + 1);
      OneKey(tab, w.tabs[tab], State());
      RepliesForgotten(After(answered, ReceiptArrives(tab, server.receipts[id].revision)));
    }

    method TakeState(state: set<Op>)
      requires Valid() && flush.Sending? && flush.next == |flush.list| && state == server.merged
      modifies this
      ensures Valid() && Around() == After(old(Around()), StateArrives(tab))
      ensures State() == old(State()).(flush := Loaded(old(flush).list, state))
      ensures edited == old(edited) && dropped == old(dropped)
    {
      hide Inv;
      ghost var w := Around();
      StepHolds(w, StateArrives(tab));
      flush := Loaded(flush.list, state);
      OneKey(tab, w.tabs[tab], State());
      assert Around() == After(w, StateArrives(tab));
    }

    /** "Saved on server" means that every update ever stored has its receipt and is shown. */
    method FlushEnd()
      requires Valid() && flush.Loaded?
      modifies this
      ensures Valid() && Around() == After(old(Around()), FlushEnds(tab)) && flush.Idle?
      ensures doc == old(doc) + old(flush).state && queued == old(queued)
      ensures edited == old(edited) && dropped == old(dropped)
      ensures forall i :: 0 <= i < |old(flush).list| ==> old(flush).list[i].bytes <= doc
      ensures status == if store.entries == [] then SavedOnServer else PendingSync
      ensures storageFailed == old(storageFailed)
      ensures status == SavedOnServer ==> StoredOps(store.stored) <= server.merged
    {
      hide Inv, StoredOps;
      ghost var w := Around();
      FlushEndShows(w, tab);
      StepHolds(w, FlushEnds(tab));
      doc := doc + flush.state;
      status := if store.entries == [] then SavedOnServer else PendingSync;
      flush := Idle;
      OneKey(tab, w.tabs[tab], State());
      assert Around() == After(w, FlushEnds(tab));
    }

    method FlushFail()
      requires Valid() && !flush.Idle?
      modifies this
      ensures Valid() && Around() == After(old(Around()), FlushFails(tab))
      ensures flush.Idle? && status == SyncError && doc == old(doc) && queued == old(queued)
      ensures storageFailed == old(storageFailed) && edited == old(edited) && dropped == old(dropped)
    {
      hide Inv;
      ghost var w := Around();
      StepHolds(w, FlushFails(tab));
      flush, status := Idle, SyncError;
      OneKey(tab, w.tabs[tab], State());
      assert Around() == After(w, FlushFails(tab));
    }

    /**
     A flush that nothing interrupts: afterwards the store is empty, everything
     that ever reached it is on the server, and the tab shows the server's state.
     */
    method Flush()
      requires Valid() && flush.Idle?
      modifies this, store, server
      ensures Valid() && flush.Idle? && queued == old(queued) && edited == old(edited) && dropped == old(dropped)
      ensures ServerGrows(old(server.State()), server.State()) && store.stored == old(store.stored)
      ensures if old(storageFailed)
              then status == StorageError && store.entries == old(store.entries) && server.State() == old(server.State())
              else status == SavedOnServer && store.entries == [] && StoredOps(store.stored) <= server.merged <= doc
    {
      hide Inv, ServerGrows, StoredOps, ServerHolds;
      FlushBegin();
      SameServerGrows(server.State());
      if storageFailed {
        return;
      }
      SendAll();
      FetchState();
    }

    /** Send every batch of the list; what was pending when it was read leaves the store. */
    method SendAll()
      requires Valid() && flush == Sending(store.entries, 0)
      modifies this, store, server
      ensures Valid() && store.entries == [] && store.stored == old(store.stored)
      ensures State() == old(State()).(flush := Sending(old(flush).list, |old(flush).list|))
      ensures ServerGrows(old(server.State()), server.State()) && edited == old(edited) && dropped == old(dropped)
    {
      hide Inv, ServerGrows, ServerHolds;
      SameServerGrows(server.State());
      while flush.next < |flush.list|
        invariant Valid() && flush.Sending? && flush.next <= |flush.list|
        invariant State() == old(State()).(flush := Sending(old(flush).list, flush.next))
        invariant store.stored == old(store.stored) && edited == old(edited) && dropped == old(dropped)
        invariant ServerGrows(old(server.State()), server.State())
        invariant forall e :: e in store.entries ==> AwaitedFrom(flush.list, flush.next, e.id)
        decreases |flush.list| - flush.next
      {
        ghost var before := server.State();
        SendOne();
        GrowsOn(old(server.State()), before, server.State());
      }
      NothingAwaited(flush.list, store.entries);
    }

    /** The server's state is shown, and what that says about the tab is announced. */
    method FetchState()
      requires Valid() && flush.Sending? && flush.next == |flush.list|
      modifies this
      ensures Valid() && flush.Idle? && queued == old(queued) && edited == old(edited) && dropped == old(dropped)
      ensures server.merged <= doc && (status == SavedOnServer <==> store.entries == [])
      ensures status == SavedOnServer ==> StoredOps(store.stored) <= server.merged
    {
      hide Inv, ServerHolds, StoredOps;
      ServerIsValid(Around());
      var state := server.GetDocumentState();
      TakeState(state);
      FlushEnd();
    }

    /** Send the awaited batch and take its receipt. */
    method SendOne()
      requires Valid() && AwaitsReceipt(State())
      modifies this, store, server
      ensures Valid() && store.stored == old(store.stored) && ServerGrows(old(server.State()), server.State())
      ensures State() == old(State()).(flush := Sending(old(flush).list, old(flush).next + 1))
      ensures forall e :: e in store.entries <==> e in old(store.entries) && e.id != AwaitedBatch(old(State()))
      ensures edited == old(edited) && dropped == old(dropped)
    {
      hide Inv;
      ghost var w := Around();
      var request := flush.list[flush.next];
      ServerIsValid(w);
      SentIsServed(w, tab);
      var reply := server.PersistDocumentUpdate(request);
      TakeReceipt();
    }
  }

  ghost predicate AwaitedFrom(list: seq<Entry>, next: nat, id: Batch) {
    exists j :: next <= j < |list| && list[j].id == id
  }

  lemma NothingAwaited(list: seq<Entry>, entries: seq<Entry>)
    requires forall e :: e in entries ==> AwaitedFrom(list, |list|, e.id)
    ensures entries == []
  {
    HasMember(entries);
  }

  lemma HasMember(entries: seq<Entry>)
    ensures entries == [] || exists e :: e in entries
  {
    if entries != [] {
      assert entries[0] in entries;
    }
  }

  lemma GrowsOn(a: Server, b: Server, c: Server)
    requires ServerGrows(a, b) && ServerGrows(b, c)
    ensures ServerGrows(a, c)
  {
  }

  lemma AwaitedHasReceipt(w: World, t: TabId)
    requires Inv(w) && t in w.tabs && AwaitsReceipt(w.tabs[t]) && AwaitedBatch(w.tabs[t]) in w.server.receipts
    ensures var id := AwaitedBatch(w.tabs[t]);
      Inv(w.(replies := {Persisted(id, w.server.receipts[id].revision)}))
    ensures Receipted(w.server, w.tabs[t].flush.list[w.tabs[t].flush.next])
  {
    var flush := w.tabs[t].flush;
    assert FlushHolds(w.stored, w.server, flush);
    assert Genuine(w.stored, flush.list[flush.next]);
    KnownIsReceipted(w.server, AwaitedBatch(w.tabs[t]));
  }

  lemma OneKey<K, V>(k: K, a: V, b: V)
    ensures map[k := a][k := b] == map[k := b]
  {
  }

  lemma ServerIsValid(w: World)
    requires Inv(w)
    ensures ServerHolds(w.server)
  {
  }

  lemma RepliesForgotten(w: World)
    requires Inv(w)
    ensures Inv(w.(replies := {}))
  {
  }

  /** The batch a flush awaits is served, and never refused. */
  lemma SentIsServed(w: World, t: TabId)
    requires Inv(w) && t in w.tabs && AwaitsReceipt(w.tabs[t])
    ensures var request := w.tabs[t].flush.list[w.tabs[t].flush.next];
      Inv(w.(server := Served(w.server, request).0)) && request.id in Served(w.server, request).0.receipts
  {
    hide NothingLost, EditsAccounted, ServerHolds, ServerGrows, Served, RepliesAgree;
    var request := w.tabs[t].flush.list[w.tabs[t].flush.next];
    assert FlushHolds(w.stored, w.server, w.tabs[t].flush);
    assert Genuine(w.stored, request);
    ServedHolds(w.server, request);
    ServedGenuine(w.stored, w.server, request);
    GrowthKeeps(w, Served(w.server, request).0);
  }

  lemma FlushEndShows(w: World, t: TabId)
    requires Inv(w) && Enabled(w, FlushEnds(t))
    ensures forall i :: 0 <= i < |w.tabs[t].flush.list| ==> w.tabs[t].flush.list[i].bytes <= w.tabs[t].flush.state
    ensures w.tabs[t].flush.state <= w.server.merged
    ensures w.pending == [] ==> StoredOps(w.stored) <= w.server.merged
  {
    assert FlushHolds(w.stored, w.server, w.tabs[t].flush);
    if w.pending == [] {
      SavedOnServerMeans(w, t);
      forall op | op in StoredOps(w.stored)
        ensures op in w.server.merged
      {
        var id :| id in w.stored && op in w.stored[id];
        assert Receipted(w.server, Entry(id, w.stored[id]));
      }
    }
  }
}
