/**
 What the handler's counters add up to, in any run of System.dfy: every
 connection that ended did so by exactly one of four exits, and every recorded
 disconnect belongs to exactly one connection.
 */
module Conservation {
  import opened Sequences
  import opened Protocol
  import opened System
  import Engine
  import Runtime
  import SessionTable

  function Where(conns: map<string, Conn>, p: Conn -> bool): set<string> {
    set id | id in conns && p(conns[id])
  }

  function CountWhere(conns: map<string, Conn>, p: Conn -> bool): nat {
    |Where(conns, p)|
  }

  lemma CountPut(conns: map<string, Conn>, id: string, conn: Conn, p: Conn -> bool)
    ensures CountWhere(conns[id := conn], p) ==
            CountWhere(conns, p) - (if id in conns && p(conns[id]) then 1 else 0) + (if p(conn) then 1 else 0)
  {
    var s, t := Where(conns, p), Where(conns[id := conn], p);
    if p(conn) {
      assert t == (s - {id}) + {id};
    } else {
      assert t == s - {id};
    }
  }

  lemma CountSplit(conns: map<string, Conn>, p: Conn -> bool, q: Conn -> bool, r: Conn -> bool)
    requires forall id :: id in conns ==>
               (p(conns[id]) <==> q(conns[id]) || r(conns[id])) && !(q(conns[id]) && r(conns[id]))
    ensures CountWhere(conns, p) == CountWhere(conns, q) + CountWhere(conns, r)
  {
    assert Where(conns, q) + Where(conns, r) == Where(conns, p);
    assert Where(conns, q) !! Where(conns, r);
  }

  predicate Open(conn: Conn) {
    !conn.phase.Done?
  }

  predicate Ended(conn: Conn) {
    conn.phase.Done?
  }

  predicate Recorded(conn: Conn) {
    conn.reason.Some?
  }

  function ReasonIs(reason: string): Conn -> bool {
    (conn: Conn) => conn.reason == Some(reason)
  }

  /** Left the loop by this exit, returned or not. */
  function LeftBy(exit: Exit): Conn -> bool {
    (conn: Conn) => conn.phase == Returning(exit) || conn.phase == Done(exit)
  }

  function EndedBy(exit: Exit): Conn -> bool {
    (conn: Conn) => conn.phase == Done(exit)
  }

  function Either(p: Conn -> bool, q: Conn -> bool): Conn -> bool {
    (conn: Conn) => p(conn) || q(conn)
  }

  lemma ExitCases(conn: Conn)
    ensures Ended(conn) <==>
            Either(EndedBy(ReadError), EndedBy(SequenceGap))(conn)
            || Either(EndedBy(ActionFlood), EndedBy(DuplicateSession))(conn)
  {
    if Ended(conn) {
      match conn.phase.exit
      case ReadError => assert EndedBy(ReadError)(conn);
      case SequenceGap => assert EndedBy(SequenceGap)(conn);
      case ActionFlood => assert EndedBy(ActionFlood)(conn);
      case DuplicateSession => assert EndedBy(DuplicateSession)(conn);
    }
  }

  predicate InCleanUp(conn: Conn) {
    conn.phase.Closing?
  }

  ghost function SumValues(m: map<string, int>): int
    decreases |m|
  {
    if m == map[] then 0
    else
      var k :| k in m;
      m[k] + SumValues(m - {k})
  }

  lemma {:induction false} SumRemove(m: map<string, int>, k: string)
    requires k in m
    ensures SumValues(m) == m[k] + SumValues(m - {k})
    decreases |m|
  {
    var j :| j in m && SumValues(m) == m[j] + SumValues(m - {j});
    if j != k {
      SumRemove(m - {j}, k);
      SumRemove(m - {k}, j);
      assert m - {j} - {k} == m - {k} - {j};
    }
  }

  lemma SumBump(m: map<string, int>, k: string)
    ensures SumValues(Runtime.Bump(m, k)) == SumValues(m) + 1
  {
    var n := Runtime.Bump(m, k);
    SumRemove(n, k);
    assert n - {k} == m - {k};
    if k in m {
      SumRemove(m, k);
    } else {
      assert m - {k} == m;
    }
  }

  ghost predicate ReasonsCounted(conns: map<string, Conn>, sh: Shared) {
    && sh.disconnectTotal == CountWhere(conns, Recorded)
    && sh.close4009 == CountWhere(conns, ReasonIs(CLOSE_4009))
    && (forall r :: Runtime.CountOf(sh.byReason, r) == CountWhere(conns, ReasonIs(r)))
    && SumValues(sh.byReason) == sh.disconnectTotal
  }

  ghost predicate CountInv(conns: map<string, Conn>, sh: Shared) {
    && sh.total == |conns|
    && sh.active == CountWhere(conns, Open)
    && ReasonsCounted(conns, sh)
  }

  lemma ReasonKept(conns: map<string, Conn>, sh: Shared, id: string, conn: Conn)
    requires ReasonsCounted(conns, sh)
    requires if id in conns then conn.reason == conns[id].reason else conn.reason.None?
    ensures ReasonsCounted(conns[id := conn], sh)
  {
    CountPut(conns, id, conn, Recorded);
    CountPut(conns, id, conn, ReasonIs(CLOSE_4009));
    forall r ensures Runtime.CountOf(sh.byReason, r) == CountWhere(conns[id := conn], ReasonIs(r)) {
      CountPut(conns, id, conn, ReasonIs(r));
    }
  }

  lemma ReasonAdded(conns: map<string, Conn>, sh: Shared, id: string, conn: Conn, reason: string)
    requires ReasonsCounted(conns, sh)
    requires id in conns && conns[id].reason.None? && conn.reason == Some(reason) && reason != ""
    ensures ReasonsCounted(conns[id := conn], Count(sh, reason, reason == CLOSE_4009))
  {
    var next := Count(sh, reason, reason == CLOSE_4009);
    assert next.byReason == Runtime.Bump(sh.byReason, reason);
    SumBump(sh.byReason, reason);
    CountPut(conns, id, conn, Recorded);
    CountPut(conns, id, conn, ReasonIs(CLOSE_4009));
    forall r ensures Runtime.CountOf(next.byReason, r) == CountWhere(conns[id := conn], ReasonIs(r)) {
      CountPut(conns, id, conn, ReasonIs(r));
    }
  }

  /** The counters a step touches, and the connection it touches. */
  lemma StepCounts(c: Config, ec: Engine.Config, w: World, e: Event)
    requires c.Valid() && ec.Valid() && WorldInv(c, w) && CountInv(w.conns, w.shared)
    requires Enabled(w, e) && !e.Schedule?
    ensures CountInv(Step(c, ec, w, e).conns, Step(c, ec, w, e).shared)
  {
    var v := Step(c, ec, w, e);
    var id := e.id;
    assert id in w.conns ==> ConnInv(c, id, w.conns[id]);
    assert v.conns == w.conns[id := v.conns[id]];
    CountPut(w.conns, id, v.conns[id], Open);
    if e.Receive? {
      FrameKeeps(c, w.conns[id].local, e.frame);
    } else if e.ReadFails? {
      ClassifiedReason(e.failure);
    }
    if v.shared.disconnectTotal == w.shared.disconnectTotal {
      ReasonKept(w.conns, w.shared, id, v.conns[id]);
    } else {
      ReasonAdded(w.conns, w.shared, id, v.conns[id], v.conns[id].reason.value);
    }
  }

  lemma {:induction false} CountersFollow(c: Config, ec: Engine.Config, events: seq<Event>)
    requires c.Valid() && ec.Valid()
    ensures CountInv(Run(c, ec, events).conns, Run(c, ec, events).shared)
  {
    if events != [] {
      var before, e := events[..|events| - 1], events[|events| - 1];
      CountersFollow(c, ec, before);
      SnapshotsAgree(c, ec, before);
      if Enabled(Run(c, ec, before), e) && !e.Schedule? {
        StepCounts(c, ec, Run(c, ec, before), e);
      }
    }
  }

  lemma ReasonsByExit(c: Config, conns: map<string, Conn>)
    requires forall id :: id in conns ==> ConnInv(c, id, conns[id])
    ensures CountWhere(conns, Recorded) ==
            CountWhere(conns, InCleanUp) + CountWhere(conns, LeftBy(ReadError)) + CountWhere(conns, LeftBy(SequenceGap))
  {
    var left := Either(LeftBy(ReadError), LeftBy(SequenceGap));
    forall id | id in conns
      ensures (Recorded(conns[id]) <==> InCleanUp(conns[id]) || left(conns[id]))
              && !(InCleanUp(conns[id]) && left(conns[id]))
    {
      assert ConnInv(c, id, conns[id]) && ReasonMatches(conns[id]);
    }
    CountSplit(conns, Recorded, InCleanUp, left);
    CountSplit(conns, left, LeftBy(ReadError), LeftBy(SequenceGap));
  }

  lemma EndedByExit(conns: map<string, Conn>)
    ensures CountWhere(conns, Ended) ==
            CountWhere(conns, EndedBy(ReadError)) + CountWhere(conns, EndedBy(SequenceGap))
            + CountWhere(conns, EndedBy(ActionFlood)) + CountWhere(conns, EndedBy(DuplicateSession))
  {
    var counted := Either(EndedBy(ReadError), EndedBy(SequenceGap));
    var silent := Either(EndedBy(ActionFlood), EndedBy(DuplicateSession));
    forall id | id in conns
      ensures (Ended(conns[id]) <==> counted(conns[id]) || silent(conns[id]))
              && !(counted(conns[id]) && silent(conns[id]))
    {
      ExitCases(conns[id]);
    }
    CountSplit(conns, Ended, counted, silent);
    CountSplit(conns, counted, EndedBy(ReadError), EndedBy(SequenceGap));
    CountSplit(conns, silent, EndedBy(ActionFlood), EndedBy(DuplicateSession));
  }

  /**
   At every moment of every run: total minus active counts the ended connections,
   which split over the four exits; the disconnect total is the sum over reasons
   and counts the connections that left by a read error or a gap; each reason's
   counter counts the connections it was recorded for.
   */
  lemma ConnectionsConserved(c: Config, ec: Engine.Config, events: seq<Event>)
    requires c.Valid() && ec.Valid()
    ensures var w := Run(c, ec, events);
            && w.shared.total - w.shared.active == CountWhere(w.conns, Ended)
            && CountWhere(w.conns, Ended) ==
               CountWhere(w.conns, EndedBy(ReadError)) + CountWhere(w.conns, EndedBy(SequenceGap))
               + CountWhere(w.conns, EndedBy(ActionFlood)) + CountWhere(w.conns, EndedBy(DuplicateSession))
    ensures var w := Run(c, ec, events);
            && w.shared.disconnectTotal == SumValues(w.shared.byReason)
            && w.shared.disconnectTotal ==
               CountWhere(w.conns, InCleanUp)
               + CountWhere(w.conns, LeftBy(ReadError)) + CountWhere(w.conns, LeftBy(SequenceGap))
    ensures var w := Run(c, ec, events);
            && w.shared.close4009 == Runtime.CountOf(w.shared.byReason, CLOSE_4009)
            && forall r :: Runtime.CountOf(w.shared.byReason, r) == CountWhere(w.conns, ReasonIs(r))
  {
    var w := Run(c, ec, events);
    CountersFollow(c, ec, events);
    SnapshotsAgree(c, ec, events);
    EndedByExit(w.conns);
    ReasonsByExit(c, w.conns);
    var every := (conn: Conn) => true;
    CountSplit(w.conns, every, Open, Ended);
    assert (set id | id in w.conns && every(w.conns[id])) == w.conns.Keys;
  }

  /** The reason an exit asks the database to end the session with, if it asks at all. */
  function FinalizedAs(conn: Conn): Option<string> {
    if LeftByReadError(conn.phase) && conn.local.persisted then conn.reason else None
  }

  /** What a read failure is stored as: nothing for the peer's own 4009, the four known close codes as graceful. */
  lemma StoredReasonExactly(e: ReadFailure)
    ensures SessionTable.MapDisconnectReason(Classify(e).0) ==
            match e.closeCode
            case Some(4009) => None
            case Some(1000) => Some(SessionTable.Graceful)
            case Some(1001) => Some(SessionTable.Graceful)
            case Some(1005) => Some(SessionTable.Graceful)
            case Some(1006) => Some(SessionTable.Graceful)
            case _ =>
              if e.saysTimeout then Some(SessionTable.TimedOut)
              else if e.eof then Some(SessionTable.Graceful)
              else Some(SessionTable.Failed)
  {
  }

  /**
   An ended connection asks for finalisation with a reason the database knows
   exactly when it was registered with persistence, left by a read error, and the
   error was not the peer's own close with 4009. Whether the row is then ended is
   decided in Ownership.dfy.
   */
  lemma FinalizationAskedExactly(c: Config, ec: Engine.Config, events: seq<Event>, id: string)
    requires c.Valid() && ec.Valid()
    requires id in Run(c, ec, events).conns
    ensures var conn := Run(c, ec, events).conns[id];
            FinalizedAs(conn).Some? && SessionTable.MapDisconnectReason(FinalizedAs(conn).value).Some? <==>
              LeftByReadError(conn.phase) && c.persistence && conn.local.session.traderId != ""
                && conn.reason != Some(CLOSE_4009)
  {
    SnapshotsAgree(c, ec, events);
    assert ConnInv(c, id, Run(c, ec, events).conns[id]);
  }
}
