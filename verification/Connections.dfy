/**
 The registry of live connections with its index by session, and what the
 lifecycle hooks and the heartbeat ask the ledger to write.
 */
module Connections {
  import opened Collections
  import opened ReplicaLedger

  datatype SocketId = SocketId(n: nat)

  datatype SessionId = SessionId(n: nat)

  // `replica` is absent for clients that send no valid replica id.
  datatype Entry = Entry(session: SessionId, document: nat, replica: Option<Replica>, synced: bool)

  type Sockets = map<SocketId, Entry>

  function SocketsOf(sockets: Sockets, session: SessionId): set<SocketId> {
    set s | s in sockets && sockets[s].session == session
  }

  /** The session index lists every session with a live socket, and exactly its sockets. */
  ghost predicate Indexes(sockets: Sockets, sessions: map<SessionId, set<SocketId>>) {
    forall q :: (q in sessions <==> SocketsOf(sockets, q) != {}) && (q in sessions ==> sessions[q] == SocketsOf(sockets, q))
  }

  // A touch and the document whose ledger it is for.
  datatype LedgerWrite = LedgerWrite(document: nat, touch: Touch)

  /** The write for a connection's replica; clients without one leave no trace in the ledger. */
  function WriteFor(entry: Entry, at: Time): Option<LedgerWrite> {
    if entry.replica.Some? then Some(LedgerWrite(entry.document, Touch(entry.replica.value, entry.synced, at))) else None
  }

  class ConnectionRegistry {
    var bySocket: Sockets
    var bySession: map<SessionId, set<SocketId>>

    ghost predicate Valid()
      reads this
    {
      Indexes(bySocket, bySession)
    }

    constructor ()
      ensures Valid() && bySocket == map[]
    {
      bySocket, bySession := map[], map[];
    }

    /** The index stays exact exactly when the socket was not registered under another session. */
    method Register(socket: SocketId, session: SessionId, document: nat, replica: Option<Replica>)
      requires Valid()
      modifies this
      ensures bySocket == old(bySocket)[socket := Entry(session, document, replica, false)]
      ensures bySession == old(bySession)[session := SocketsOf(old(bySocket), session) + {socket}]
      ensures Valid() <==> (socket in old(bySocket) ==> old(bySocket)[socket].session == session)
    {
      RegisterIndexes(bySocket, bySession, socket, Entry(session, document, replica, false));
      bySocket := bySocket[socket := Entry(session, document, replica, false)];
      var sockets := if session in bySession then bySession[session] else {};
      bySession := bySession[session := sockets + {socket}];
    }

    method Unregister(socket: SocketId) returns (entry: Option<Entry>)
      requires Valid()
      modifies this
      ensures Valid() && bySocket == old(bySocket) - {socket}
      ensures entry == if socket in old(bySocket) then Some(old(bySocket)[socket]) else None
    {
      if socket !in bySocket {
        assert bySocket - {socket} == bySocket;
        return None;
      }
      entry := Some(bySocket[socket]);
      UnregisterIndexes(bySocket, bySession, socket);
      var session := bySocket[socket].session;
      bySocket := bySocket - {socket};
      var sockets := bySession[session] - {socket};
      bySession := if sockets == {} then bySession - {session} else bySession[session := sockets];
    }

    method MarkSynced(socket: SocketId) returns (entry: Option<Entry>)
      requires Valid()
      modifies this`bySocket
      ensures Valid()
      ensures if socket in old(bySocket)
              then entry == Some(old(bySocket)[socket].(synced := true))
                && bySocket == old(bySocket)[socket := entry.value]
              else entry == None && bySocket == old(bySocket)
    {
      if socket !in bySocket {
        return None;
      }
      MarkingIndexes(bySocket, bySession, socket);
      entry := Some(bySocket[socket].(synced := true));
      bySocket := bySocket[socket := bySocket[socket].(synced := true)];
    }

    /** The sockets to close when a session is revoked: all of them, and no others. */
    method CloseSession(session: SessionId) returns (closed: set<SocketId>)
      requires Valid()
      ensures closed == SocketsOf(bySocket, session)
      ensures forall s :: s in closed <==> s in bySocket && bySocket[s].session == session
    {
      closed := if session in bySession then bySession[session] else {};
    }

    // ---------- hooks ----------

    /** A new connection blocks: its write never carries an acknowledgement. */
    method Connected(socket: SocketId, session: SessionId, document: nat, replica: Option<Replica>, at: Time)
      returns (write: Option<LedgerWrite>)
      requires Valid() && socket !in bySocket
      modifies this
      ensures Valid() && bySocket == old(bySocket)[socket := Entry(session, document, replica, false)]
      ensures write == if replica.Some? then Some(LedgerWrite(document, Touch(replica.value, false, at))) else None
    {
      Register(socket, session, document, replica);
      write := WriteFor(bySocket[socket], at);
    }

    method OnSynced(socket: SocketId, at: Time) returns (write: Option<LedgerWrite>)
      requires Valid()
      modifies this`bySocket
      ensures Valid() && bySocket.Keys == old(bySocket).Keys
      ensures forall s :: s in bySocket && s != socket ==> bySocket[s] == old(bySocket)[s]
      ensures socket in bySocket ==>
        var was := old(bySocket)[socket];
        && bySocket[socket] == Entry(was.session, was.document, was.replica, true)
        && write == if was.replica.Some? then Some(LedgerWrite(was.document, Touch(was.replica.value, true, at))) else None
      ensures socket !in bySocket ==> write.None?
    {
      var entry := MarkSynced(socket);
      write := if entry.Some? then WriteFor(entry.value, at) else None;
    }

    /** A leaving connection is acknowledged only if it had been. */
    method OnDisconnect(socket: SocketId, at: Time) returns (write: Option<LedgerWrite>)
      requires Valid()
      modifies this
      ensures Valid() && bySocket == old(bySocket) - {socket}
      ensures socket !in old(bySocket) ==> write.None?
      ensures socket in old(bySocket) ==>
        var was := old(bySocket)[socket];
        write == if was.replica.Some? then Some(LedgerWrite(was.document, Touch(was.replica.value, was.synced, at))) else None
    {
      var entry := Unregister(socket);
      write := if entry.Some? then WriteFor(entry.value, at) else None;
    }

    /** One heartbeat: one write for every live connection with a replica id, none for the others. */
    method Heartbeat(at: Time) returns (writes: seq<LedgerWrite>)
      ensures exists listing :: WritesFor(bySocket, bySocket.Keys, at, listing, writes)
    {
      writes := [];
      var left := bySocket.Keys;
      ghost var listing: seq<SocketId> := [];
      while left != {}
        invariant left <= bySocket.Keys && WritesFor(bySocket, bySocket.Keys - left, at, listing, writes)
        decreases |left|
      {
        var s := Pick(left);
        var write := WriteFor(bySocket[s], at);
        NextWrite(bySocket, left, at, listing, writes, s);
        if write.Some? {
          listing, writes := listing + [s], writes + [write.value];
        }
        left := left - {s};
      }
      assert bySocket.Keys - left == bySocket.Keys;
    }
  }

  /** `listing` names each connection of `among` that has a replica id once, and `writes` holds their writes. */
  ghost predicate WritesFor(sockets: Sockets, among: set<SocketId>, at: Time, listing: seq<SocketId>,
                            writes: seq<LedgerWrite>)
  {
    && |writes| == |listing|
    && (forall i, j :: 0 <= i < j < |listing| ==> listing[i] != listing[j])
    && (forall s :: s in listing <==> s in among && s in sockets && sockets[s].replica.Some?)
    && forall i :: 0 <= i < |listing| ==>
         var e := sockets[listing[i]];
         writes[i] == LedgerWrite(e.document, Touch(e.replica.value, e.synced, at))
  }

  lemma NextWrite(sockets: Sockets, left: set<SocketId>, at: Time, listing: seq<SocketId>, writes: seq<LedgerWrite>,
                  s: SocketId)
    requires WritesFor(sockets, sockets.Keys - left, at, listing, writes) && s in left && s in sockets
    ensures var write := WriteFor(sockets[s], at);
      if write.Some? then WritesFor(sockets, sockets.Keys - (left - {s}), at, listing + [s], writes + [write.value])
      else WritesFor(sockets, sockets.Keys - (left - {s}), at, listing, writes)
  {
    assert sockets.Keys - (left - {s}) == sockets.Keys - left + {s};
    var more := listing + [s];
    forall z
      ensures z in more <==> z in listing || z == s
    {
    }
  }

  /** One socket registered under two sessions: closing the first one would still take it along. */
  method RegisteredTwice(socket: SocketId, first: SessionId, second: SessionId) returns (registry: ConnectionRegistry)
    requires first != second
    ensures fresh(registry) && !registry.Valid()
    ensures socket in registry.bySocket && registry.bySocket[socket].session == second
    ensures first in registry.bySession && socket in registry.bySession[first]
  {
    registry := new ConnectionRegistry();
    registry.Register(socket, first, 0, None);
    registry.Register(socket, second, 0, None);
  }

  lemma RegisterIndexes(sockets: Sockets, sessions: map<SessionId, set<SocketId>>, socket: SocketId, entry: Entry)
    requires Indexes(sockets, sessions)
    ensures var known := if entry.session in sessions then sessions[entry.session] else {};
      Indexes(sockets[socket := entry], sessions[entry.session := known + {socket}])
      <==> (socket in sockets ==> sockets[socket].session == entry.session)
  {
    var known := if entry.session in sessions then sessions[entry.session] else {};
    var after, index := sockets[socket := entry], sessions[entry.session := known + {socket}];
    forall q
      ensures SocketsOf(after, q) == if q == entry.session then SocketsOf(sockets, q) + {socket} else SocketsOf(sockets, q) - {socket}
    {
    }
    if socket in sockets && sockets[socket].session != entry.session {
      var q := sockets[socket].session;
      assert socket in SocketsOf(sockets, q) && q in index && socket in index[q];
      assert socket !in SocketsOf(after, q);
    } else {
      assert forall q :: q != entry.session ==> SocketsOf(after, q) == SocketsOf(sockets, q);
      assert socket in SocketsOf(after, entry.session);
    }
  }

  lemma UnregisterIndexes(sockets: Sockets, sessions: map<SessionId, set<SocketId>>, socket: SocketId)
    requires Indexes(sockets, sessions) && socket in sockets
    ensures sockets[socket].session in sessions
    ensures var q := sockets[socket].session;
      var rest := sessions[q] - {socket};
      Indexes(sockets - {socket}, if rest == {} then sessions - {q} else sessions[q := rest])
  {
    var session := sockets[socket].session;
    assert socket in SocketsOf(sockets, session);
    forall q
      ensures SocketsOf(sockets - {socket}, q) == SocketsOf(sockets, q) - {socket}
      ensures q != session ==> SocketsOf(sockets, q) - {socket} == SocketsOf(sockets, q)
    {
    }
  }

  lemma MarkingIndexes(sockets: Sockets, sessions: map<SessionId, set<SocketId>>, socket: SocketId)
    requires Indexes(sockets, sessions) && socket in sockets
    ensures Indexes(sockets[socket := sockets[socket].(synced := true)], sessions)
  {
    forall q
      ensures SocketsOf(sockets[socket := sockets[socket].(synced := true)], q) == SocketsOf(sockets, q)
    {
    }
  }
}
