/**
 The handler's two connection maps (internal/api/ws/handler.go). Both hold
 references to the same entry objects; every method below is one critical
 section, and its effect is a function on the maps' view. DispatchRuns.dfy
 interleaves those functions.
 */
module ConnectionIndex {
  import opened ConnectionEntries

  /** What an entry holds besides its session id. */
  datatype Slot = Slot(conn: int, traderId: string, numbers: SeqState)

  /** sessions by id, and session ids by connection. */
  datatype Maps = Maps(sessions: map<string, Slot>, byConn: map<int, string>)

  /** The maps are mutual inverses. */
  ghost predicate Inverse(m: Maps) {
    && (forall id :: id in m.sessions ==> m.sessions[id].conn in m.byConn && m.byConn[m.sessions[id].conn] == id)
    && (forall c :: c in m.byConn ==> m.byConn[c] in m.sessions && m.sessions[m.byConn[c]].conn == c)
  }

  function Added(m: Maps, sessionId: string, conn: int): Maps {
    Maps(m.sessions[sessionId := Slot(conn, "", FRESH)], m.byConn[conn := sessionId])
  }

  function Bound(m: Maps, sessionId: string, traderId: string): Maps {
    if sessionId == "" || traderId == "" || sessionId !in m.sessions then m
    else m.(sessions := m.sessions[sessionId := m.sessions[sessionId].(traderId := traderId)])
  }

  function Removed(m: Maps, sessionId: string): Maps {
    if sessionId == "" || sessionId !in m.sessions then m
    else Maps(m.sessions - {sessionId}, m.byConn - {m.sessions[sessionId].conn})
  }

  datatype LookupResult = SessionRequired | NotConnected | WrongTrader | Target(conn: int)

  /** An unset id on either side matches. */
  predicate Matches(requested: string, bound: string) {
    requested == "" || bound == "" || requested == bound
  }

  function Lookup(m: Maps, sessionId: string, traderId: string): LookupResult {
    if sessionId == "" then SessionRequired
    else if sessionId !in m.sessions then NotConnected
    else if !Matches(traderId, m.sessions[sessionId].traderId) then WrongTrader
    else Target(m.sessions[sessionId].conn)
  }

  /** A frame takes the entry's next number and its ack, or zeros when the connection is not in the map. */
  function TakeNumber(m: Maps, conn: int): (Maps, u64, u64) {
    if conn !in m.byConn || m.byConn[conn] !in m.sessions then (m, 0, 0)
    else
      var id := m.byConn[conn];
      var slot := m.sessions[id];
      var number := Increment(slot.numbers.outbound);
      (m.(sessions := m.sessions[id := slot.(numbers := slot.numbers.(outbound := number))]),
       number, slot.numbers.inbound)
  }

  ghost function SlotOf(e: ConnectionEntry): Slot
    reads e
  {
    Slot(e.conn, e.traderId, e.View())
  }

  ghost function SlotsOf(entries: map<string, ConnectionEntry>): map<string, Slot>
    reads entries.Values
  {
    map id | id in entries :: SlotOf(entries[id])
  }

  lemma SlotsAdd(entries: map<string, ConnectionEntry>, id: string, e: ConnectionEntry)
    ensures SlotsOf(entries[id := e]) == SlotsOf(entries)[id := SlotOf(e)]
  {
  }

  class Index {
    var connections: map<string, ConnectionEntry>
    var connectionsByConn: map<int, ConnectionEntry>

    /** The maps hold the same entries. */
    ghost predicate Linked()
      reads this
    {
      && (forall id :: id in connections ==>
            var e := connections[id];
            e.sessionId == id && e.conn in connectionsByConn && connectionsByConn[e.conn] == e)
      && (forall c :: c in connectionsByConn ==>
            var e := connectionsByConn[c];
            e.conn == c && e.sessionId in connections && connections[e.sessionId] == e)
    }

    /** And none of them is closed. */
    ghost predicate Valid()
      reads this, connections.Values
    {
      Linked() && forall id :: id in connections ==> connections[id].Valid() && !connections[id].closeOnce
    }

    ghost function View(): Maps
      reads this, connections.Values
    {
      Maps(SlotsOf(connections), map c | c in connectionsByConn :: connectionsByConn[c].sessionId)
    }

    constructor ()
      ensures Valid() && View() == Maps(map[], map[])
    {
      connections, connectionsByConn := map[], map[];
    }

    /** Session ids and connections are freshly generated. */
    method AddConnection(sessionId: string, conn: int) returns (entry: ConnectionEntry)
      requires Valid() && sessionId !in connections && conn !in connectionsByConn
      modifies this
      ensures Valid() && fresh(entry) && entry.sessionId == sessionId && entry.conn == conn
      ensures connections == old(connections)[sessionId := entry]
      ensures View() == Added(old(View()), sessionId, conn)
    {
      entry := new ConnectionEntry(sessionId, conn);
      Register(entry);
    }

    /** The critical section of AddConnection. */
    method Register(entry: ConnectionEntry)
      requires Valid() && entry.sessionId !in connections && entry.conn !in connectionsByConn
      requires entry.Valid() && !entry.closeOnce && entry.traderId == "" && entry.View() == FRESH
      modifies this
      ensures Valid() && connections == old(connections)[entry.sessionId := entry]
      ensures View() == Added(old(View()), entry.sessionId, entry.conn)
    {
      SlotsAdd(connections, entry.sessionId, entry);
      connections := connections[entry.sessionId := entry];
      connectionsByConn := connectionsByConn[entry.conn := entry];
      assert Linked();
      assert View().byConn == old(View()).byConn[entry.conn := entry.sessionId];
    }

    method BindConnectionTrader(sessionId: string, traderId: string)
      requires Valid()
      modifies (if sessionId in connections then {connections[sessionId]} else {})`traderId
      ensures Valid() && View() == Bound(old(View()), sessionId, traderId)
    {
      if sessionId == "" || traderId == "" {
        return;
      }
      if sessionId in connections {
        connections[sessionId].traderId := traderId;
      }
    }

    /** Removing an absent session changes nothing; removing a present one closes its entry, which signals once. */
    method RemoveConnection(sessionId: string)
      requires Valid()
      modifies this, if sessionId in connections then {connections[sessionId]} else {}
      ensures Valid() && View() == Removed(old(View()), sessionId)
      ensures sessionId != "" && sessionId in old(connections) ==>
                old(connections)[sessionId].closeOnce && old(connections)[sessionId].closeSignals == 1
      ensures (sessionId == "" || sessionId !in old(connections)) ==> unchanged(this)
      ensures sessionId == "" && sessionId in connections ==> unchanged(connections[sessionId])
    {
      if sessionId == "" {
        return;
      }
      if sessionId in connections {
        var entry := connections[sessionId];
        connections := connections - {sessionId};
        connectionsByConn := connectionsByConn - {entry.conn};
        entry.MarkClosed();
      }
    }

    /** The first half of DispatchLatencyTest, undisturbed; DispatchRuns.dfy parts the lookup from the comparison. */
    method FindTarget(sessionId: string, traderId: string) returns (r: LookupResult)
      requires Valid()
      ensures r == Lookup(View(), sessionId, traderId)
    {
      if sessionId == "" {
        return SessionRequired;
      }
      if sessionId !in connections {
        return NotConnected;
      }
      var entry := connections[sessionId];
      if traderId != "" && entry.traderId != "" && traderId != entry.traderId {
        return WrongTrader;
      }
      return Target(entry.conn);
    }

    /**
     sendEnvelope, undisturbed: a frame is numbered while its connection is registered.
     DispatchRuns.dfy parts the two locks.
    */
    method SendEnvelope(conn: int) returns (number: u64, ack: u64)
      requires Valid()
      modifies (if conn in connectionsByConn then {connectionsByConn[conn]} else {})`outboundSeq
      ensures Valid() && (View(), number, ack) == TakeNumber(old(View()), conn)
    {
      if conn in connectionsByConn {
        var entry := connectionsByConn[conn];
        ghost var before := View();
        number, ack := entry.NextOutboundSeqAck();
        assert before.byConn[conn] == entry.sessionId;
        assert View().sessions ==
          before.sessions[entry.sessionId := before.sessions[entry.sessionId].(numbers := entry.View())];
        assert View().byConn == before.byConn;
      } else {
        number, ack := 0, 0;
      }
    }

    /** The exits remove a session twice (once explicitly, once deferred): the second removal is a no-op. */
    method RemoveTwice(sessionId: string)
      requires Valid() && sessionId != "" && sessionId in connections
      modifies this, connections[sessionId]
      ensures Valid() && View() == Removed(old(View()), sessionId)
      ensures old(connections)[sessionId].closeSignals == 1
    {
      RemoveConnection(sessionId);
      RemoveConnection(sessionId);
    }
  }
}
