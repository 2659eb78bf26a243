/**
 What the statements of Ownership.dfy come to when nothing interferes and none
 fails: a registration, a heartbeat and a finalisation do what CreateSession,
 UpdateHeartbeat and FinalizeSession promise (internal/api/rest/ws_persistence.go).
 */
module OwnershipAlone {
  import opened Sequences
  import opened SessionTable
  import opened Ownership

  /** A statement that does not fail. */
  predicate Alone(e: Event, id: string) {
    e.Advance? && e.id == id && e.fault == NoFault && !e.retry
  }

  /** The connection's next n statements. */
  ghost function GoOn(staleAfter: int, s: State, id: string, now: int, unaffected: bool, n: nat): State {
    if n == 0 then s
    else Step(staleAfter, GoOn(staleAfter, s, id, now, unaffected, n - 1), Advance(id, now, NoFault, false, unaffected))
  }

  lemma {:induction false} GoOnFirst(staleAfter: int, s: State, id: string, now: int, unaffected: bool, n: nat)
    requires n > 0
    ensures GoOn(staleAfter, s, id, now, unaffected, n) ==
            GoOn(staleAfter, Step(staleAfter, s, Advance(id, now, NoFault, false, unaffected)), id, now, unaffected,
                 n - 1)
  {
    if n > 1 {
      GoOnFirst(staleAfter, s, id, now, unaffected, n - 1);
    }
  }

  ghost predicate AtRest(s: State, t: State, id: string) {
    && (PhaseOf(s, id).Owner? || PhaseOf(s, id).Gone?)
    && PhaseOf(t, id) == PhaseOf(s, id) && t.rows == s.rows && t.beats == s.beats
  }

  /** A connection between operations, or gone, executes nothing. */
  lemma {:induction false} Rests(staleAfter: int, s: State, id: string, now: int, unaffected: bool, n: nat)
    requires PhaseOf(s, id).Owner? || PhaseOf(s, id).Gone?
    ensures AtRest(s, GoOn(staleAfter, s, id, now, unaffected, n), id)
  {
    if n > 0 {
      var before := GoOn(staleAfter, s, id, now, unaffected, n - 1);
      Rests(staleAfter, s, id, now, unaffected, n - 1);
      RestStep(staleAfter, s, before, Advance(id, now, NoFault, false, unaffected));
    }
  }

  lemma RestStep(staleAfter: int, s: State, t: State, e: Event)
    requires e.Advance? && AtRest(s, t, e.id)
    ensures AtRest(s, Step(staleAfter, t, e), e.id)
  {
  }

  // ---- Registration --------------------------------------------------------

  ghost predicate Outcome(staleAfter: int, s: State, t: State, id: string, traderId: int, connectedAt: int) {
    && (PhaseOf(t, id) == Owner <==>
          && id !in s.rows
          && forall k :: Active(s.rows, k) && s.rows[k].traderId == traderId ==>
               SilentFor(s.rows[k], staleAfter, connectedAt))
    && (PhaseOf(t, id) != Owner ==> PhaseOf(t, id) == Gone(NeverOwned))
    && (forall k :: k in t.rows <==> k in s.rows || (k == id && PhaseOf(t, id) == Owner))
    && (PhaseOf(t, id) == Owner ==> id in t.rows && t.rows[id] == Row(traderId, connectedAt, connectedAt, None))
    && (forall k :: k in s.rows ==>
          && k in t.rows
          && t.rows[k] ==
             if Active(s.rows, k) && s.rows[k].traderId == traderId && SilentFor(s.rows[k], staleAfter, connectedAt)
             then s.rows[k].(ended := Some(TimedOut)) else s.rows[k])
  }

  lemma AskToRegister(staleAfter: int, s: State, id: string, traderId: int, connectedAt: int)
    requires PhaseOf(s, id).Idle?
    ensures var t := Step(staleAfter, s, Register(id, traderId, connectedAt));
            PhaseOf(t, id) == Inserting(traderId, connectedAt) && t.rows == s.rows
  {
  }

  lemma InsertAlone(staleAfter: int, s: State, id: string, e: Event)
    requires Alone(e, id)
    requires PhaseOf(s, id).Inserting? || PhaseOf(s, id).Reinserting?
    ensures var p, t := PhaseOf(s, id), Step(staleAfter, s, e);
            && (CanInsert(s.rows, id, p.traderId) ==>
                  PhaseOf(t, id) == Owner
                    && t.rows == s.rows[id := Row(p.traderId, p.connectedAt, p.connectedAt, None)])
            && (!CanInsert(s.rows, id, p.traderId) ==>
                  t.rows == s.rows
                  && PhaseOf(t, id) == if p.Inserting? then Reading(p.traderId, p.connectedAt) else Gone(NeverOwned))
  {
  }

  /** Reading goes on to end the trader's active row exactly when that is silent for the limit. */
  lemma ReadAlone(staleAfter: int, s: State, id: string, e: Event)
    requires Alone(e, id)
    requires PhaseOf(s, id).Reading? && OneActivePerTrader(s.rows)
    ensures var p, t := PhaseOf(s, id), Step(staleAfter, s, e);
            && t.rows == s.rows
            && (forall k :: Active(s.rows, k) && s.rows[k].traderId == p.traderId ==>
                  PhaseOf(t, id) == if SilentFor(s.rows[k], staleAfter, p.connectedAt)
                                    then Ending(p.traderId, p.connectedAt, k, s.rows[k], s.tick) else Gone(NeverOwned))
            && ((forall k :: Active(s.rows, k) ==> s.rows[k].traderId != p.traderId) ==>
                  PhaseOf(t, id) == Gone(NeverOwned))
  {
    var p := PhaseOf(s, id);
    assert forall k :: k in ActivesOf(s, p.traderId) <==> Active(s.rows, k) && s.rows[k].traderId == p.traderId;
  }

  lemma EndAlone(staleAfter: int, s: State, id: string, e: Event)
    requires Alone(e, id)
    requires PhaseOf(s, id).Ending? && Active(s.rows, PhaseOf(s, id).victim)
    ensures var p, t := PhaseOf(s, id), Step(staleAfter, s, e);
            && t.rows == s.rows[p.victim := s.rows[p.victim].(ended := Some(TimedOut))]
            && PhaseOf(t, id) == Reinserting(p.traderId, p.connectedAt)
  {
  }

  /**
   A registration alone, from any state of the protocol: it owns the trader exactly
   when the id is new and every active row of the trader has been silent for the
   limit; such a row is ended as timed out and nothing else is touched.
   */
  lemma RegistrationAlone(staleAfter: int, s: State, id: string, traderId: int, connectedAt: int)
    requires OneActivePerTrader(s.rows) && PhaseOf(s, id).Idle?
    ensures Outcome(staleAfter, s,
                    GoOn(staleAfter, Step(staleAfter, s, Register(id, traderId, connectedAt)), id, 0, false, 4),
                    id, traderId, connectedAt)
  {
    var e := Advance(id, 0, NoFault, false, false);
    AskToRegister(staleAfter, s, id, traderId, connectedAt);
    var s0 := Step(staleAfter, s, Register(id, traderId, connectedAt));
    GoOnFirst(staleAfter, s0, id, 0, false, 4);
    InsertAlone(staleAfter, s0, id, e);
    var s1 := Step(staleAfter, s0, e);
    if CanInsert(s.rows, id, traderId) {
      Rests(staleAfter, s1, id, 0, false, 3);
    } else {
      Refused(staleAfter, s, s1, id, traderId, connectedAt);
    }
  }

  lemma Refused(staleAfter: int, s: State, s1: State, id: string, traderId: int, connectedAt: int)
    requires OneActivePerTrader(s.rows) && !CanInsert(s.rows, id, traderId)
    requires s1.rows == s.rows && PhaseOf(s1, id) == Reading(traderId, connectedAt)
    ensures Outcome(staleAfter, s, GoOn(staleAfter, s1, id, 0, false, 3), id, traderId, connectedAt)
  {
    var e := Advance(id, 0, NoFault, false, false);
    GoOnFirst(staleAfter, s1, id, 0, false, 3);
    ReadAlone(staleAfter, s1, id, e);
    var s2 := Step(staleAfter, s1, e);
    if k :| Active(s.rows, k) && s.rows[k].traderId == traderId && SilentFor(s.rows[k], staleAfter, connectedAt) {
      TakesOver(staleAfter, s, s2, id, traderId, connectedAt);
    } else {
      Rests(staleAfter, s2, id, 0, false, 2);
    }
  }

  lemma TakesOver(staleAfter: int, s: State, s2: State, id: string, traderId: int, connectedAt: int)
    requires OneActivePerTrader(s.rows) && s2.rows == s.rows
    requires PhaseOf(s2, id).Ending? && PhaseOf(s2, id).traderId == traderId
             && PhaseOf(s2, id).connectedAt == connectedAt
    requires var k := PhaseOf(s2, id).victim;
             Active(s.rows, k) && s.rows[k].traderId == traderId && SilentFor(s.rows[k], staleAfter, connectedAt)
    ensures Outcome(staleAfter, s, GoOn(staleAfter, s2, id, 0, false, 2), id, traderId, connectedAt)
  {
    var e := Advance(id, 0, NoFault, false, false);
    GoOnFirst(staleAfter, s2, id, 0, false, 2);
    EndAlone(staleAfter, s2, id, e);
    InsertsAgain(staleAfter, s, PhaseOf(s2, id).victim, Step(staleAfter, s2, e), id, traderId, connectedAt);
  }

  lemma InsertsAgain(staleAfter: int, s: State, k: string, s3: State, id: string, traderId: int, connectedAt: int)
    requires OneActivePerTrader(s.rows) && PhaseOf(s3, id) == Reinserting(traderId, connectedAt)
    requires Active(s.rows, k) && s.rows[k].traderId == traderId && SilentFor(s.rows[k], staleAfter, connectedAt)
    requires s3.rows == s.rows[k := s.rows[k].(ended := Some(TimedOut))]
    ensures Outcome(staleAfter, s, GoOn(staleAfter, s3, id, 0, false, 1), id, traderId, connectedAt)
  {
    GoOnFirst(staleAfter, s3, id, 0, false, 1);
    InsertAlone(staleAfter, s3, id, Advance(id, 0, NoFault, false, false));
    assert CanInsert(s3.rows, id, traderId) <==> id !in s.rows;
  }

  // ---- Heartbeat and finalisation --------------------------------------------

  /**
   A heartbeat alone: it dates the row and is marked in memory exactly when the row
   is active, whether or not the database counts the row as changed.
   */
  lemma HeartbeatAlone(staleAfter: int, s: State, id: string, now: int, unaffected: bool)
    requires PhaseOf(s, id).Owner?
    ensures var t := GoOn(staleAfter, Step(staleAfter, s, Heartbeat(id)), id, now, unaffected, 3);
            && PhaseOf(t, id) == Owner
            && (Active(s.rows, id) ==>
                  && t.rows == s.rows[id := s.rows[id].(lastHeartbeat := now)]
                  && |BeatsOf(t, id)| == |BeatsOf(s, id)| + 1
                  && BeatsOf(t, id)[|BeatsOf(s, id)|].stamp == s.tick)
            && (!Active(s.rows, id) ==> t.rows == s.rows && BeatsOf(t, id) == BeatsOf(s, id))
  {
    var e := Advance(id, now, NoFault, false, unaffected);
    var s0 := Step(staleAfter, s, Heartbeat(id));
    assert PhaseOf(s0, id) == Beating(s.tick) && s0.rows == s.rows && s0.beats == s.beats && s0.tick == s.tick + 1;
    GoOnFirst(staleAfter, s0, id, now, unaffected, 3);
    BeatAlone(staleAfter, s0, id, e);
    Settles(staleAfter, s, Step(staleAfter, s0, e), id, now, unaffected);
  }

  /** After the UPDATE: a second look if no row was counted, then the mark if the row is active. */
  lemma Settles(staleAfter: int, s: State, s1: State, id: string, now: int, unaffected: bool)
    requires s1.beats == s.beats && (Active(s1.rows, id) <==> Active(s.rows, id))
    requires PhaseOf(s1, id) ==
             if Active(s.rows, id) && !unaffected then Marking(s.tick, s.tick + 1) else Checking(s.tick)
    ensures var t := GoOn(staleAfter, s1, id, now, unaffected, 2);
            && PhaseOf(t, id) == Owner && t.rows == s1.rows
            && (Active(s.rows, id) ==>
                  |BeatsOf(t, id)| == |BeatsOf(s, id)| + 1 && BeatsOf(t, id)[|BeatsOf(s, id)|].stamp == s.tick)
            && (!Active(s.rows, id) ==> BeatsOf(t, id) == BeatsOf(s, id))
  {
    var e := Advance(id, now, NoFault, false, unaffected);
    GoOnFirst(staleAfter, s1, id, now, unaffected, 2);
    if PhaseOf(s1, id).Checking? {
      CheckAlone(staleAfter, s1, id, e);
    } else {
      MarkAlone(staleAfter, s1, id, e);
    }
    LastOfHeartbeat(staleAfter, Step(staleAfter, s1, e), id, now, unaffected);
  }

  lemma LastOfHeartbeat(staleAfter: int, s: State, id: string, now: int, unaffected: bool)
    requires PhaseOf(s, id).Owner? || PhaseOf(s, id).Marking?
    ensures var p, t := PhaseOf(s, id), GoOn(staleAfter, s, id, now, unaffected, 1);
            && PhaseOf(t, id) == Owner && t.rows == s.rows
            && BeatsOf(t, id) == BeatsOf(s, id) + if p.Marking? then [Beat(p.stamp, p.commit, s.tick)] else []
  {
    GoOnFirst(staleAfter, s, id, now, unaffected, 1);
    if PhaseOf(s, id).Marking? {
      MarkAlone(staleAfter, s, id, Advance(id, now, NoFault, false, unaffected));
    } else {
      Rests(staleAfter, s, id, now, unaffected, 1);
    }
  }

  lemma BeatAlone(staleAfter: int, s: State, id: string, e: Event)
    requires Alone(e, id) && PhaseOf(s, id).Beating?
    ensures var p, t := PhaseOf(s, id), Step(staleAfter, s, e);
            && t.rows == (if Active(s.rows, id) then s.rows[id := s.rows[id].(lastHeartbeat := e.now)] else s.rows)
            && t.beats == s.beats
            && PhaseOf(t, id) ==
               if Active(s.rows, id) && !e.unaffected then Marking(p.stamp, s.tick) else Checking(p.stamp)
  {
  }

  lemma CheckAlone(staleAfter: int, s: State, id: string, e: Event)
    requires Alone(e, id) && PhaseOf(s, id).Checking?
    ensures var p, t := PhaseOf(s, id), Step(staleAfter, s, e);
            && t.rows == s.rows && t.beats == s.beats
            && PhaseOf(t, id) == if Active(s.rows, id) then Marking(p.stamp, s.tick) else Owner
  {
  }

  lemma MarkAlone(staleAfter: int, s: State, id: string, e: Event)
    requires Alone(e, id) && PhaseOf(s, id).Marking?
    ensures var p, t := PhaseOf(s, id), Step(staleAfter, s, e);
            && t.rows == s.rows && PhaseOf(t, id) == Owner
            && BeatsOf(t, id) == BeatsOf(s, id) + [Beat(p.stamp, p.commit, s.tick)]
  {
  }

  /** A finalisation alone: the row, if still active, is ended as failed; no other row is touched. */
  lemma FinalizationAlone(staleAfter: int, s: State, id: string, now: int)
    requires PhaseOf(s, id).Owner?
    ensures var t := GoOn(staleAfter, Step(staleAfter, s, ReadError(id)), id, now, false, 1);
            && PhaseOf(t, id) == Gone(Closed(true))
            && t.rows == if Active(s.rows, id) then s.rows[id := s.rows[id].(ended := Some(Failed))] else s.rows
  {
    var s0 := Step(staleAfter, s, ReadError(id));
    assert PhaseOf(s0, id) == Finalizing(false) && s0.rows == s.rows;
    GoOnFirst(staleAfter, s0, id, now, false, 1);
  }
}
