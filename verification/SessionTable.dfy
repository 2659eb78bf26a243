/**
 The TRADER_SESSION table and the persistence layer over it
 (internal/db/repository/trader_session.go, internal/api/rest/ws_persistence.go).
 The functions are the meaning of single SQL statements; the classes run the
 statements of one operation without interference. Ownership.dfy interleaves them.
 */
module SessionTable {
  import opened Sequences

  datatype Reason = Graceful | TimedOut | Failed | ServerShutdown

  /** Times are nanoseconds, 0 is the zero time; ended is the reason of an ended session. */
  datatype Row = Row(traderId: int, connectedAt: int, lastHeartbeat: int, ended: Option<Reason>)

  type Rows = map<string, Row>

  predicate Active(rows: Rows, id: string) {
    id in rows && rows[id].ended.None?
  }

  /** Both unique keys: SESSION_ID, and one active row per trader. */
  predicate CanInsert(rows: Rows, id: string, traderId: int) {
    id !in rows && forall k :: k in rows ==> !(rows[k].traderId == traderId && rows[k].ended.None?)
  }

  ghost predicate OneActivePerTrader(rows: Rows) {
    forall a, b :: Active(rows, a) && Active(rows, b) && rows[a].traderId == rows[b].traderId ==> a == b
  }

  function Touch(rows: Rows, id: string, now: int): Rows {
    if Active(rows, id) then rows[id := rows[id].(lastHeartbeat := now)] else rows
  }

  function End(rows: Rows, id: string, reason: Reason): Rows {
    if Active(rows, id) then rows[id := rows[id].(ended := Some(reason))] else rows
  }

  predicate IsSessionStale(row: Row, now: int, staleAfter: int) {
    var reference := if row.lastHeartbeat == 0 then row.connectedAt else row.lastHeartbeat;
    staleAfter > 0 && reference != 0 && reference + staleAfter <= now
  }

  /** mapDisconnectReason: the handler's own reason for closing with 4009 has no image. */
  function MapDisconnectReason(reason: string): Option<Reason> {
    if reason == "client_close" then Some(Graceful)
    else if reason == "timeout" then Some(TimedOut)
    else if reason == "server_shutdown" then Some(ServerShutdown)
    else if reason == "protocol_error" || reason == "read_error" then Some(Failed)
    else None
  }

  datatype UpdateResult = Updated | SessionNotFound | SessionAlreadyEnded

  class TraderSessionTable {
    var rows: Rows

    constructor ()
      ensures rows == map[] && OneActivePerTrader(rows)
    {
      rows := map[];
    }

    method Create(id: string, traderId: int, connectedAt: int, lastHeartbeat: int) returns (duplicate: bool)
      requires OneActivePerTrader(rows)
      modifies this
      ensures OneActivePerTrader(rows)
      ensures duplicate <==> !CanInsert(old(rows), id, traderId)
      ensures rows == if duplicate then old(rows) else old(rows)[id := Row(traderId, connectedAt, lastHeartbeat, None)]
    {
      if !CanInsert(rows, id, traderId) {
        return true;
      }
      rows := rows[id := Row(traderId, connectedAt, lastHeartbeat, None)];
      duplicate := false;
    }

    method GetActiveByTraderId(traderId: int) returns (id: Option<string>)
      ensures id.Some? ==> Active(rows, id.value) && rows[id.value].traderId == traderId
      ensures id.None? ==> forall k :: Active(rows, k) ==> rows[k].traderId != traderId
    {
      if k :| k in rows && rows[k].traderId == traderId && rows[k].ended.None? {
        return Some(k);
      }
      return None;
    }

    /** Accepted exactly for an active row, also when the database reports no changed row. */
    method UpdateHeartbeat(id: string, now: int) returns (r: UpdateResult)
      requires OneActivePerTrader(rows)
      modifies this
      ensures OneActivePerTrader(rows) && rows == Touch(old(rows), id, now)
      ensures r.Updated? <==> Active(old(rows), id)
      ensures r.SessionNotFound? <==> id !in old(rows)
    {
      var rowsAffected := 0;
      if id in rows && rows[id].ended.None? {
        rowsAffected := if rows[id].lastHeartbeat == now then 0 else 1;
        rows := rows[id := rows[id].(lastHeartbeat := now)];
      }
      if rowsAffected == 0 {
        if id !in rows {
          return SessionNotFound;
        }
        if rows[id].ended.Some? {
          return SessionAlreadyEnded;
        }
      }
      return Updated;
    }

    /** Ending is idempotent: it fails only for a session the table does not know. */
    method EndSession(id: string, reason: Reason) returns (r: UpdateResult)
      requires OneActivePerTrader(rows)
      modifies this
      ensures OneActivePerTrader(rows) && rows == End(old(rows), id, reason)
      ensures r == if id in old(rows) then Updated else SessionNotFound
    {
      if id in rows && rows[id].ended.None? {
        rows := rows[id := rows[id].(ended := Some(reason))];
        return Updated;
      }
      return if id !in rows then SessionNotFound else Updated;
    }
  }

  /** Last heard of, by a heartbeat or else by connecting, at least a positive span before now. */
  ghost predicate SilentFor(row: Row, span: int, now: int) {
    && span > 0
    && (row.lastHeartbeat != 0 ==> row.lastHeartbeat <= now - span)
    && (row.lastHeartbeat == 0 ==> row.connectedAt != 0 && row.connectedAt <= now - span)
  }

  class SessionPersistence {
    const table: TraderSessionTable
    const staleAfter: int

    constructor (table: TraderSessionTable, staleAfter: int)
      ensures this.table == table && this.staleAfter == staleAfter
    {
      this.table, this.staleAfter := table, staleAfter;
    }

    /**
     Succeeds exactly when the id is new and every active session of the trader was
     last heard of at least staleAfter before the newcomer connected. Such a session
     is ended; a refusal leaves fresh sessions alone.
     */
    method CreateSession(id: string, traderId: int, connectedAt: int) returns (created: bool)
      requires OneActivePerTrader(table.rows)
      modifies table
      ensures OneActivePerTrader(table.rows)
      ensures created <==>
              && id !in old(table.rows)
              && forall k :: Active(old(table.rows), k) && old(table.rows)[k].traderId == traderId ==>
                   var row := old(table.rows)[k];
                   var heard := if row.lastHeartbeat == 0 then row.connectedAt else row.lastHeartbeat;
                   heard != 0 && staleAfter > 0 && connectedAt - heard >= staleAfter
      ensures created ==> id in table.rows && table.rows[id] == Row(traderId, connectedAt, connectedAt, None)
      ensures table.rows.Keys == old(table.rows).Keys + if created then {id} else {}
      ensures forall k :: k in old(table.rows) ==>
                k in table.rows && (table.rows[k] == old(table.rows)[k]
                || (Active(old(table.rows), k) && old(table.rows)[k].traderId == traderId
                    && SilentFor(old(table.rows)[k], staleAfter, connectedAt)
                    && table.rows[k] == old(table.rows)[k].(ended := Some(TimedOut))))
    {
      var duplicate := table.Create(id, traderId, connectedAt, connectedAt);
      if !duplicate {
        return true;
      }
      var recovered := TryRecoverStaleActiveSession(traderId, connectedAt);
      if !recovered {
        return false;
      }
      duplicate := table.Create(id, traderId, connectedAt, connectedAt);
      created := !duplicate;
    }

    method TryRecoverStaleActiveSession(traderId: int, connectedAt: int) returns (recovered: bool)
      requires OneActivePerTrader(table.rows)
      modifies table
      ensures OneActivePerTrader(table.rows)
      ensures recovered <==> exists k :: Active(old(table.rows), k) && old(table.rows)[k].traderId == traderId
                                         && SilentFor(old(table.rows)[k], staleAfter, connectedAt)
      ensures !recovered ==> table.rows == old(table.rows)
      ensures recovered ==> exists k :: Active(old(table.rows), k) && old(table.rows)[k].traderId == traderId
                                        && SilentFor(old(table.rows)[k], staleAfter, connectedAt)
                                        && table.rows == End(old(table.rows), k, TimedOut)
    {
      if staleAfter <= 0 {
        return false;
      }
      var active := table.GetActiveByTraderId(traderId);
      if active.None? {
        return false;
      }
      if !IsSessionStale(table.rows[active.value], connectedAt, staleAfter) {
        return false;
      }
      var r := table.EndSession(active.value, TimedOut);
      recovered := true;
    }

    /**
     The stored reason is the handler's, its read error counted as a failure; one the database lacks
     changes nothing.
    */
    method FinalizeSession(id: string, reason: string) returns (ok: bool)
      requires OneActivePerTrader(table.rows)
      modifies table
      ensures OneActivePerTrader(table.rows)
      ensures ok <==> reason in {"client_close", "timeout", "server_shutdown", "protocol_error", "read_error"}
                      && id in old(table.rows)
      ensures !ok || !Active(old(table.rows), id) ==> table.rows == old(table.rows)
      ensures ok && Active(old(table.rows), id) ==>
                var stored := if reason == "client_close" then Graceful else if reason == "timeout" then TimedOut
                              else if reason == "server_shutdown" then ServerShutdown else Failed;
                table.rows == old(table.rows)[id := old(table.rows)[id].(ended := Some(stored))]
    {
      var mapped := MapDisconnectReason(reason);
      if mapped.None? {
        return false;
      }
      var r := table.EndSession(id, mapped.value);
      ok := r == Updated;
    }
  }
}
