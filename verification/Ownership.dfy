/**
 Which connection owns a trader: the statements of registration, heartbeat and
 finalisation (internal/api/ws/handler.go, internal/api/rest/ws_persistence.go,
 internal/db/repository/trader_session.go) interleaved arbitrarily across
 connections, each statement atomic, each allowed to fail with or without having
 taken effect. Ticks number the steps of a run.
 */
module Ownership {
  import opened Sequences
  import opened SessionTable

  /** Where a connection's read loop stands between two statements. */
  datatype Phase =
    | Idle
    | Inserting(traderId: int, connectedAt: int)
    | Reading(traderId: int, connectedAt: int)
    | Ending(traderId: int, connectedAt: int, victim: string, seen: Row, readAt: nat)
    | Verifying(traderId: int, connectedAt: int, victim: string)
    | Reinserting(traderId: int, connectedAt: int)
    | Owner
    | Beating(stamp: nat)
    | Checking(stamp: nat)
    | Marking(stamp: nat, commit: nat)
    | Finalizing(reached: bool)
    | Gone(left: Left)

  /** How a connection ended; reached: some finalising statement got through to the table. */
  datatype Left = NeverOwned | Abandoned | Closed(reached: bool)

  /** An accepted heartbeat: time stamp read, database acceptance, in-memory mark. */
  datatype Beat = Beat(stamp: nat, commit: nat, mark: nat)

  /** A takeover remembers the row it had read, and when. */
  datatype Cause = Finalized | TakenOver(seen: Row, connectedAt: int, readAt: nat)

  datatype Death = Death(at: nat, cause: Cause)

  /** A heartbeat statement that took effect. */
  datatype Touched = Touched(at: nat, now: int)

  /** touched: each row's latest heartbeat statement; lost: rows whose connection never learned of them. */
  datatype State = State(
    tick: nat,
    rows: Rows,
    born: map<string, nat>,
    died: map<string, Death>,
    phases: map<string, Phase>,
    beats: map<string, seq<Beat>>,
    touched: map<string, Touched>,
    lost: set<string>)

  const INITIAL: State := State(0, map[], map[], map[], map[], map[], map[], {})

  /** A statement fails before, or after, taking effect. */
  datatype Fault = NoFault | BeforeEffect | AfterEffect

  datatype Event =
    | Register(id: string, traderId: int, connectedAt: int)
    | Heartbeat(id: string)
    | ReadError(id: string)
    | Abandon(id: string)
    | Advance(id: string, now: int, fault: Fault, retry: bool, unaffected: bool)

  function PhaseOf(s: State, id: string): Phase {
    if id in s.phases then s.phases[id] else Idle
  }

  function BeatsOf(s: State, id: string): seq<Beat> {
    if id in s.beats then s.beats[id] else []
  }

  // ---- Statements --------------------------------------------------------

  /** What a statement did to the table or to the session in memory. */
  datatype Op =
    | NoOp
    | InsertRow(row: Row)
    | EndRow(victim: string, reason: Reason, cause: Cause)
    | TouchRow(now: int)
    | MarkBeat(stamp: nat, commit: nat)

  datatype Move = Move(op: Op, phase: Phase)

  /** Registration after a failed statement: start the operation over, or report the error. */
  function Again(p: Phase, retry: bool): Phase
    requires p.Inserting? || p.Reading? || p.Ending? || p.Verifying? || p.Reinserting?
  {
    if retry then Inserting(p.traderId, p.connectedAt) else Idle
  }

  function InsertMove(s: State, id: string, p: Phase, fault: Fault, retry: bool): Move
    requires p.Inserting? || p.Reinserting?
  {
    var done := fault != BeforeEffect && CanInsert(s.rows, id, p.traderId);
    Move(if done then InsertRow(Row(p.traderId, p.connectedAt, p.connectedAt, None)) else NoOp,
         if fault != NoFault then Again(p, retry)
         else if done then Owner
         else if p.Inserting? then Reading(p.traderId, p.connectedAt)
         else Gone(NeverOwned))
  }

  function ActivesOf(s: State, traderId: int): set<string> {
    set k | k in s.rows && s.rows[k].traderId == traderId && s.rows[k].ended.None?
  }

  /** The unique key leaves at most one choice. */
  ghost function Pick(ids: set<string>): (id: string)
    requires ids != {}
    ensures id in ids
  {
    var id :| id in ids; id
  }

  ghost function ReadMove(staleAfter: int, s: State, p: Phase, fault: Fault, retry: bool): Move
    requires p.Reading?
  {
    if staleAfter <= 0 then Move(NoOp, Gone(NeverOwned))
    else if fault != NoFault then Move(NoOp, Again(p, retry))
    else if ActivesOf(s, p.traderId) == {} then Move(NoOp, Gone(NeverOwned))
    else
      var victim := Pick(ActivesOf(s, p.traderId));
      Move(NoOp,
           if IsSessionStale(s.rows[victim], p.connectedAt, staleAfter)
           then Ending(p.traderId, p.connectedAt, victim, s.rows[victim], s.tick) else Gone(NeverOwned))
  }

  function EndOp(s: State, victim: string, reason: Reason, cause: Cause): Op {
    if Active(s.rows, victim) then EndRow(victim, reason, cause) else NoOp
  }

  /** UPDATE ... SET ENDED_AT on the session read earlier; no row affected leads to a second look. */
  function EndMove(s: State, p: Phase, fault: Fault, retry: bool): Move
    requires p.Ending?
  {
    Move(if fault == BeforeEffect then NoOp
         else EndOp(s, p.victim, TimedOut, TakenOver(p.seen, p.connectedAt, p.readAt)),
         if fault != NoFault then Again(p, retry)
         else if Active(s.rows, p.victim) then Reinserting(p.traderId, p.connectedAt)
         else Verifying(p.traderId, p.connectedAt, p.victim))
  }

  function VerifyMove(s: State, p: Phase, fault: Fault, retry: bool): Move
    requires p.Verifying?
  {
    Move(NoOp, if fault != NoFault || p.victim !in s.rows || Active(s.rows, p.victim) then Again(p, retry)
               else Reinserting(p.traderId, p.connectedAt))
  }

  /** A heartbeat whose statement failed: try again with the same time stamp, or report the error. */
  function BeatAgain(stamp: nat, retry: bool): Phase {
    if retry then Beating(stamp) else Owner
  }

  /** UPDATE ... SET LAST_HEARTBEAT; MySQL may report no affected row although the row is active. */
  function BeatMove(s: State, id: string, p: Phase, now: int, fault: Fault, retry: bool, unaffected: bool): Move
    requires p.Beating?
  {
    Move(if fault != BeforeEffect && Active(s.rows, id) then TouchRow(now) else NoOp,
         if fault != NoFault then BeatAgain(p.stamp, retry)
         else if Active(s.rows, id) && !unaffected then Marking(p.stamp, s.tick)
         else Checking(p.stamp))
  }

  function CheckMove(s: State, id: string, p: Phase, fault: Fault, retry: bool): Move
    requires p.Checking?
  {
    Move(NoOp, if fault != NoFault || !Active(s.rows, id) then BeatAgain(p.stamp, retry) else Marking(p.stamp, s.tick))
  }

  function FinalizeMove(s: State, id: string, p: Phase, fault: Fault, retry: bool): Move
    requires p.Finalizing?
  {
    var reached := p.reached || fault != BeforeEffect;
    Move(if fault == BeforeEffect then NoOp else EndOp(s, id, Failed, Finalized),
         if fault != NoFault && retry then Finalizing(reached) else Gone(Closed(reached)))
  }

  /** The next statement of one connection. */
  ghost function AdvanceMove(staleAfter: int, s: State, e: Event): Move
    requires e.Advance?
  {
    var p := PhaseOf(s, e.id);
    match p
    case Inserting(_, _) => InsertMove(s, e.id, p, e.fault, e.retry)
    case Reinserting(_, _) => InsertMove(s, e.id, p, e.fault, e.retry)
    case Reading(_, _) => ReadMove(staleAfter, s, p, e.fault, e.retry)
    case Ending(_, _, _, _, _) => EndMove(s, p, e.fault, e.retry)
    case Verifying(_, _, _) => VerifyMove(s, p, e.fault, e.retry)
    case Beating(_) => BeatMove(s, e.id, p, e.now, e.fault, e.retry, e.unaffected)
    case Checking(_) => CheckMove(s, e.id, p, e.fault, e.retry)
    case Marking(stamp, commit) => Move(MarkBeat(stamp, commit), Owner)
    case Finalizing(_) => FinalizeMove(s, e.id, p, e.fault, e.retry)
    case _ => Move(NoOp, p)
  }

  /** A frame or a read error arriving at a connection that is between operations. */
  function ReceiveMove(s: State, e: Event): Move
    requires !e.Advance?
  {
    var p := PhaseOf(s, e.id);
    Move(NoOp,
         match e
         case Register(id, traderId, connectedAt) => if p == Idle then Inserting(traderId, connectedAt) else p
         case Heartbeat(id) => if p == Owner then Beating(s.tick) else p
         case ReadError(id) => if p == Owner then Finalizing(false) else if p == Idle then Gone(NeverOwned) else p
         case Abandon(id) => if p == Owner then Gone(Abandoned) else if p == Idle then Gone(NeverOwned) else p)
  }

  ghost function MoveOf(staleAfter: int, s: State, e: Event): Move {
    if e.Advance? then AdvanceMove(staleAfter, s, e) else ReceiveMove(s, e)
  }

  /** Effects are dated by the tick they happen in; then time moves on. */
  function Apply(s: State, id: string, m: Move): State {
    var t := s.(phases := s.phases[id := m.phase], tick := s.tick + 1);
    match m.op
    case NoOp => t
    case InsertRow(row) =>
      t.(rows := s.rows[id := row], born := s.born[id := s.tick],
         lost := if m.phase.Owner? then s.lost else s.lost + {id})
    case EndRow(victim, reason, cause) =>
      t.(rows := End(s.rows, victim, reason), died := s.died[victim := Death(s.tick, cause)])
    case TouchRow(now) => t.(rows := Touch(s.rows, id, now), touched := s.touched[id := Touched(s.tick, now)])
    case MarkBeat(stamp, commit) => t.(beats := s.beats[id := BeatsOf(s, id) + [Beat(stamp, commit, s.tick)]])
  }

  ghost function Step(staleAfter: int, s: State, e: Event): State {
    Apply(s, e.id, MoveOf(staleAfter, s, e))
  }

  ghost function RunFrom(staleAfter: int, s: State, events: seq<Event>): State
    decreases |events|
  {
    if events == [] then s
    else Step(staleAfter, RunFrom(staleAfter, s, events[..|events| - 1]), events[|events| - 1])
  }

  // ---- What every step keeps -------------------------------------------

  /** Row a had ended before row b was inserted. */
  ghost predicate Before(s: State, a: string, b: string) {
    a in s.died && b in s.born && s.died[a].at < s.born[b]
  }

  /** The rows and their birth and death ticks; lifetimes of one trader's rows do not overlap. */
  ghost predicate TableInv(s: State) {
    && (forall id :: id in s.rows <==> id in s.born)
    && (forall id :: id in s.rows ==> s.born[id] < s.tick)
    && (forall id :: id in s.died <==> id in s.rows && s.rows[id].ended.Some?)
    && (forall id :: id in s.died ==> s.born[id] < s.died[id].at < s.tick)
    && (forall a, b :: a in s.rows && b in s.rows && a != b && s.rows[a].traderId == s.rows[b].traderId ==>
          Before(s, a, b) || Before(s, b, a))
  }

  /** A heartbeat in flight or accepted: read after the row's birth, committed before its death. */
  ghost predicate CommittedInLife(s: State, id: string, stamp: nat, commit: nat) {
    && id in s.born
    && s.born[id] < stamp < commit < s.tick
    && (id in s.died ==> commit < s.died[id].at)
  }

  ghost predicate PhaseInv(s: State, id: string, p: Phase) {
    match p
    case Owner => id in s.born
    case Beating(stamp) => id in s.born && s.born[id] < stamp < s.tick
    case Checking(stamp) => id in s.born && s.born[id] < stamp < s.tick
    case Marking(stamp, commit) => CommittedInLife(s, id, stamp, commit)
    case Finalizing(_) => id in s.born
    case _ => true
  }

  ghost predicate BeatInv(s: State, id: string, beats: seq<Beat>, p: Phase) {
    && (forall i :: 0 <= i < |beats| ==> CommittedInLife(s, id, beats[i].stamp, beats[i].commit))
    && (forall i :: 0 <= i < |beats| ==> beats[i].commit < beats[i].mark < s.tick)
    && (id in s.died ==> forall i :: 0 <= i < |beats| - 1 ==> beats[i].mark < s.died[id].at)
    && (id in s.died && p.Marking? ==> forall i :: 0 <= i < |beats| ==> beats[i].mark < s.died[id].at)
  }

  ghost predicate SessionInv(s: State, id: string) {
    PhaseInv(s, id, PhaseOf(s, id)) && BeatInv(s, id, BeatsOf(s, id), PhaseOf(s, id))
  }

  predicate TouchedSince(s: State, id: string, at: nat) {
    id in s.touched && s.touched[id].at >= at
  }

  /** A row, its end aside, is what a connection read at a tick, with the time of any later heartbeat statement. */
  predicate StillShows(s: State, id: string, seen: Row, readAt: nat) {
    && seen.ended.None? && id in s.rows
    && s.rows[id].(ended := None) ==
       if TouchedSince(s, id, readAt) then seen.(lastHeartbeat := s.touched[id].now) else seen
  }

  predicate WasRead(staleAfter: int, s: State, id: string, seen: Row, connectedAt: int, readAt: nat) {
    IsSessionStale(seen, connectedAt, staleAfter) && StillShows(s, id, seen, readAt) && readAt < s.tick
  }

  /** Whoever ends a row, or is about to, has read it as stale. */
  ghost predicate TakeoverInv(staleAfter: int, s: State) {
    && (forall id :: id in s.touched ==> s.touched[id].at < s.tick)
    && (forall id :: id in s.died && s.died[id].cause.TakenOver? ==>
          var c := s.died[id].cause;
          WasRead(staleAfter, s, id, c.seen, c.connectedAt, c.readAt) && c.readAt < s.died[id].at)
    && (forall id :: id in s.phases && s.phases[id].Ending? ==>
          var p := s.phases[id];
          WasRead(staleAfter, s, p.victim, p.seen, p.connectedAt, p.readAt))
  }

  datatype Standing = Unowned | Owned | Over

  /** Whether a connection has learned of a row of its own, and whether its finalisation got through. */
  function StandingOf(p: Phase): Standing {
    match p
    case Owner => Owned
    case Beating(_) => Owned
    case Checking(_) => Owned
    case Marking(_, _) => Owned
    case Finalizing(reached) => if reached then Over else Owned
    case Gone(left) => if left == NeverOwned then Unowned else if left == Closed(true) then Over else Owned
    case _ => Unowned
  }

  predicate DisplacedOnly(s: State, id: string) {
    id in s.died ==> s.died[id].cause.TakenOver?
  }

  ghost predicate StandingInv(s: State, id: string) {
    match StandingOf(PhaseOf(s, id))
    case Unowned => (id in s.born <==> id in s.lost) && DisplacedOnly(s, id)
    case Owned => id in s.born && id !in s.lost && DisplacedOnly(s, id)
    case Over => id in s.died && id !in s.lost
  }

  ghost predicate Inv(staleAfter: int, s: State) {
    TableInv(s) && (forall id :: SessionInv(s, id)) && (forall id :: StandingInv(s, id)) && TakeoverInv(staleAfter, s)
  }

  /** Phases that claim nothing about the table. */
  predicate Quiet(p: Phase) {
    p.Idle? || p.Inserting? || p.Reading? || p.Verifying? || p.Reinserting? || p.Gone?
  }

  /** The next phase is justified by the present state. */
  ghost predicate Justified(staleAfter: int, s: State, id: string, p: Phase) {
    match p
    case Ending(_, connectedAt, victim, seen, readAt) =>
      p == PhaseOf(s, id)
      || (Active(s.rows, victim) && seen == s.rows[victim] && readAt == s.tick
          && IsSessionStale(seen, connectedAt, staleAfter))
    case Beating(stamp) => id in s.born && s.born[id] < stamp <= s.tick
    case Checking(stamp) => id in s.born && s.born[id] < stamp <= s.tick
    case Marking(stamp, commit) =>
      p == PhaseOf(s, id) || (Active(s.rows, id) && id in s.born && s.born[id] < stamp < commit == s.tick)
    case Owner => id in s.born
    case Finalizing(_) => id in s.born
    case _ => true
  }

  /** The moves the protocol can make. */
  ghost predicate Legal(staleAfter: int, s: State, id: string, m: Move) {
    && (PhaseOf(s, id).Marking? ==> m.op.MarkBeat? || m == Move(NoOp, PhaseOf(s, id)))
    && LegalOp(staleAfter, s, id, m)
    && LegalStanding(s, id, m)
  }

  /** A row is learned of by inserting it, and over when its own finalisation finds it ended or ends it. */
  ghost predicate LegalStanding(s: State, id: string, m: Move) {
    var was, next := StandingOf(PhaseOf(s, id)), StandingOf(m.phase);
    && (m.op.InsertRow? ==> was == Unowned && next == if m.phase.Owner? then Owned else Unowned)
    && (m.op.EndRow? && m.op.cause.Finalized? ==> m.op.victim == id && next == Over)
    && (!m.op.InsertRow? ==> next == was || (was == Owned && next == Over
                                              && ((m.op.EndRow? && m.op.victim == id) || !Active(s.rows, id))))
  }

  ghost predicate LegalOp(staleAfter: int, s: State, id: string, m: Move) {
    match m.op
    case NoOp => Justified(staleAfter, s, id, m.phase)
    case TouchRow(_) => Active(s.rows, id) && !m.phase.Ending? && Justified(staleAfter, s, id, m.phase)
    case InsertRow(row) => CanInsert(s.rows, id, row.traderId) && row.ended.None? && (Quiet(m.phase) || m.phase.Owner?)
    case EndRow(victim, _, cause) =>
      && Active(s.rows, victim)
      && (cause.TakenOver? ==>
            && PhaseOf(s, id).Ending? && PhaseOf(s, id).victim == victim
            && cause == TakenOver(PhaseOf(s, id).seen, PhaseOf(s, id).connectedAt, PhaseOf(s, id).readAt))
      && (Quiet(m.phase) || (m.phase.Finalizing? && id in s.born))
    case MarkBeat(stamp, commit) => PhaseOf(s, id) == Marking(stamp, commit) && m.phase.Owner?
  }

  lemma OpsAreLegal(staleAfter: int, s: State, e: Event)
    requires Inv(staleAfter, s)
    ensures LegalOp(staleAfter, s, e.id, MoveOf(staleAfter, s, e))
  {
    assert SessionInv(s, e.id);
    assert PhaseInv(s, e.id, PhaseOf(s, e.id));
    if e.Advance? {
      AdvanceIsLegal(staleAfter, s, e);
    }
  }

  lemma AdvanceIsLegal(staleAfter: int, s: State, e: Event)
    requires TableInv(s) && PhaseInv(s, e.id, PhaseOf(s, e.id)) && e.Advance?
    ensures LegalOp(staleAfter, s, e.id, AdvanceMove(staleAfter, s, e))
  {
  }

  lemma StandingsAreLegal(staleAfter: int, s: State, e: Event)
    requires Inv(staleAfter, s)
    ensures LegalStanding(s, e.id, MoveOf(staleAfter, s, e))
    ensures PhaseOf(s, e.id).Marking? ==>
              MoveOf(staleAfter, s, e).op.MarkBeat? || MoveOf(staleAfter, s, e) == Move(NoOp, PhaseOf(s, e.id))
  {
    assert StandingInv(s, e.id);
  }

  lemma MovesAreLegal(staleAfter: int, s: State, e: Event)
    requires Inv(staleAfter, s)
    ensures Legal(staleAfter, s, e.id, MoveOf(staleAfter, s, e))
  {
    OpsAreLegal(staleAfter, s, e);
    StandingsAreLegal(staleAfter, s, e);
  }

  /** What a legal move can do to one session's part of the state. */
  ghost predicate Moved(s: State, t: State, id: string, k: string, m: Move) {
    PhaseMoved(s, t, id, k, m) && LifeMoved(s, t, id, k, m) && TableMoved(s, t, id, k, m)
  }

  ghost predicate PhaseMoved(s: State, t: State, id: string, k: string, m: Move) {
    && t.tick == s.tick + 1
    && PhaseOf(t, k) == (if k == id then m.phase else PhaseOf(s, k))
    && BeatsOf(t, k) ==
       BeatsOf(s, k) + (if k == id && m.op.MarkBeat? then [Beat(m.op.stamp, m.op.commit, s.tick)] else [])
  }

  ghost predicate LifeMoved(s: State, t: State, id: string, k: string, m: Move) {
    && (k in t.born <==> k in s.born || (m.op.InsertRow? && k == id))
    && (k in t.born ==> t.born[k] == if m.op.InsertRow? && k == id then s.tick else s.born[k])
    && (k in t.died <==> k in s.died || (m.op.EndRow? && k == m.op.victim))
    && (k in t.died ==> t.died[k] == if m.op.EndRow? && k == m.op.victim then Death(s.tick, m.op.cause) else s.died[k])
  }

  ghost predicate TableMoved(s: State, t: State, id: string, k: string, m: Move) {
    && (k in t.rows <==> k in s.rows || (m.op.InsertRow? && k == id))
    && (k in t.rows ==>
          t.rows[k].traderId == if m.op.InsertRow? && k == id then m.op.row.traderId else s.rows[k].traderId)
    && (k in t.rows ==> (t.rows[k].ended.Some? <==>
                         (if m.op.InsertRow? && k == id then false
                          else s.rows[k].ended.Some? || (m.op.EndRow? && k == m.op.victim))))
  }

  ghost predicate LostMoved(s: State, t: State, id: string, k: string, m: Move) {
    k in t.lost <==> k in s.lost || (m.op.InsertRow? && k == id && !m.phase.Owner?)
  }

  /** And to one row's content: heartbeat statements date it, its end aside it is otherwise constant. */
  ghost predicate RowMoved(s: State, t: State, id: string, k: string, m: Move) {
    && (k in s.rows ==>
          && k in t.rows
          && t.rows[k].(ended := None) ==
             if m.op.TouchRow? && k == id then s.rows[k].(lastHeartbeat := m.op.now, ended := None)
             else s.rows[k].(ended := None))
    && (if m.op.TouchRow? && k == id then k in t.touched && t.touched[k] == Touched(s.tick, m.op.now)
        else (k in t.touched <==> k in s.touched) && (k in s.touched ==> t.touched[k] == s.touched[k]))
  }

  lemma ApplyMovesRow(staleAfter: int, s: State, id: string, m: Move, k: string)
    requires LegalOp(staleAfter, s, id, m)
    ensures RowMoved(s, Apply(s, id, m), id, k, m)
  {
  }

  lemma ApplyMovesLost(s: State, id: string, m: Move, k: string)
    ensures LostMoved(s, Apply(s, id, m), id, k, m)
  {
  }

  lemma ReadingStep(staleAfter: int, s: State, t: State, id: string, m: Move, k: string,
                    seen: Row, connectedAt: int, readAt: nat)
    requires t.tick == s.tick + 1 && RowMoved(s, t, id, k, m) && WasRead(staleAfter, s, k, seen, connectedAt, readAt)
    ensures WasRead(staleAfter, t, k, seen, connectedAt, readAt)
  {
  }

  lemma StandingStep(staleAfter: int, s: State, t: State, id: string, m: Move, k: string)
    requires TableInv(s) && Legal(staleAfter, s, id, m) && Moved(s, t, id, k, m) && LostMoved(s, t, id, k, m)
             && StandingInv(s, k)
    ensures StandingInv(t, k)
  {
  }

  lemma ApplyPhases(s: State, id: string, m: Move)
    ensures Apply(s, id, m).phases == s.phases[id := m.phase]
    ensures Apply(s, id, m).tick == s.tick + 1
    ensures Apply(s, id, m).beats ==
            if m.op.MarkBeat? then s.beats[id := BeatsOf(s, id) + [Beat(m.op.stamp, m.op.commit, s.tick)]] else s.beats
  {
    match m.op
    case NoOp =>
    case InsertRow(_) =>
    case EndRow(_, _, _) =>
    case TouchRow(_) =>
    case MarkBeat(_, _) =>
  }

  lemma ApplyMovesPhase(s: State, id: string, m: Move, k: string)
    ensures PhaseMoved(s, Apply(s, id, m), id, k, m)
  {
    ApplyPhases(s, id, m);
  }

  lemma ApplyMovesLife(s: State, id: string, m: Move, k: string)
    ensures LifeMoved(s, Apply(s, id, m), id, k, m)
  {
  }

  lemma ApplyMovesTable(staleAfter: int, s: State, id: string, m: Move, k: string)
    requires LegalOp(staleAfter, s, id, m)
    ensures TableMoved(s, Apply(s, id, m), id, k, m)
  {
  }

  lemma ApplyMoves(staleAfter: int, s: State, id: string, m: Move, k: string)
    requires LegalOp(staleAfter, s, id, m)
    ensures Moved(s, Apply(s, id, m), id, k, m)
  {
    ApplyMovesPhase(s, id, m, k);
    ApplyMovesLife(s, id, m, k);
    ApplyMovesTable(staleAfter, s, id, m, k);
  }

  lemma TableStep(staleAfter: int, s: State, t: State, id: string, m: Move)
    requires TableInv(s) && Legal(staleAfter, s, id, m) && forall k :: Moved(s, t, id, k, m)
    ensures TableInv(t)
  {
    forall k
      ensures (k in t.rows <==> k in t.born) && (k in t.rows ==> t.born[k] < t.tick)
      ensures k in t.died <==> k in t.rows && t.rows[k].ended.Some?
      ensures k in t.died ==> t.born[k] < t.died[k].at < t.tick
    {
      assert Moved(s, t, id, k, m);
    }
    forall a, b | a in t.rows && b in t.rows && a != b && t.rows[a].traderId == t.rows[b].traderId
      ensures Before(t, a, b) || Before(t, b, a)
    {
      LifetimesStep(staleAfter, s, t, id, m, a, b);
    }
  }

  lemma LifetimesStep(staleAfter: int, s: State, t: State, id: string, m: Move, a: string, b: string)
    requires TableInv(s) && Legal(staleAfter, s, id, m) && Moved(s, t, id, a, m) && Moved(s, t, id, b, m)
    requires a in t.rows && b in t.rows && a != b && t.rows[a].traderId == t.rows[b].traderId
    ensures Before(t, a, b) || Before(t, b, a)
  {
    if m.op.InsertRow? && (a == id || b == id) {
      var other := if a == id then b else a;
      assert other in s.rows && s.rows[other].ended.Some?;
      assert Before(t, other, id);
    } else {
      assert Before(s, a, b) || Before(s, b, a);
    }
  }

  lemma SessionStep(staleAfter: int, s: State, t: State, id: string, m: Move, k: string)
    requires TableInv(s) && Legal(staleAfter, s, id, m) && Moved(s, t, id, k, m) && SessionInv(s, k)
    ensures SessionInv(t, k)
  {
    PhaseStep(staleAfter, s, t, id, m, k);
    BeatsStep(staleAfter, s, t, id, m, k);
  }

  lemma PhaseStep(staleAfter: int, s: State, t: State, id: string, m: Move, k: string)
    requires TableInv(s) && Legal(staleAfter, s, id, m) && Moved(s, t, id, k, m) && SessionInv(s, k)
    ensures PhaseInv(t, k, PhaseOf(t, k))
  {
  }

  lemma BeatsStep(staleAfter: int, s: State, t: State, id: string, m: Move, k: string)
    requires TableInv(s) && Legal(staleAfter, s, id, m) && Moved(s, t, id, k, m) && SessionInv(s, k)
    ensures BeatInv(t, k, BeatsOf(t, k), PhaseOf(t, k))
  {
    var beats := BeatsOf(s, k);
    assert forall i :: 0 <= i < |beats| ==> BeatsOf(t, k)[i] == beats[i];
    assert forall i :: 0 <= i < |beats| ==> CommittedInLife(s, k, beats[i].stamp, beats[i].commit);
  }

  lemma NewReading(staleAfter: int, s: State, id: string, m: Move)
    requires m.op.NoOp? && m.phase.Ending? && Justified(staleAfter, s, id, m.phase) && m.phase != PhaseOf(s, id)
    requires forall k :: k in s.touched ==> s.touched[k].at < s.tick
    ensures WasRead(staleAfter, Apply(s, id, m), m.phase.victim, m.phase.seen, m.phase.connectedAt, m.phase.readAt)
  {
  }

  lemma ReadingsStep(staleAfter: int, s: State, id: string, m: Move, k: string)
    requires TableInv(s) && TakeoverInv(staleAfter, s) && Legal(staleAfter, s, id, m)
    requires k in Apply(s, id, m).phases && Apply(s, id, m).phases[k].Ending?
    ensures var t := Apply(s, id, m);
            var p := t.phases[k];
            WasRead(staleAfter, t, p.victim, p.seen, p.connectedAt, p.readAt)
  {
    var t := Apply(s, id, m);
    if k in s.phases && t.phases[k] == s.phases[k] {
      var p := s.phases[k];
      ApplyMovesRow(staleAfter, s, id, m, p.victim);
      ReadingStep(staleAfter, s, t, id, m, p.victim, p.seen, p.connectedAt, p.readAt);
    } else {
      OnlyReadsEnd(staleAfter, s, id, m, k);
      NewReading(staleAfter, s, id, m);
    }
  }

  /** A phase that is about to end a row comes from a statement that only read. */
  lemma OnlyReadsEnd(staleAfter: int, s: State, id: string, m: Move, k: string)
    requires Legal(staleAfter, s, id, m)
    requires k in Apply(s, id, m).phases && Apply(s, id, m).phases[k].Ending?
    requires !(k in s.phases && Apply(s, id, m).phases[k] == s.phases[k])
    ensures k == id && m.op.NoOp? && Apply(s, id, m).phases[k] == m.phase != PhaseOf(s, id)
    ensures Justified(staleAfter, s, id, m.phase)
  {
    ApplyPhases(s, id, m);
  }

  /** A takeover's cause is what its connection had read. */
  lemma CauseWasRead(staleAfter: int, s: State, id: string, m: Move, k: string)
    requires TakeoverInv(staleAfter, s) && LegalOp(staleAfter, s, id, m)
    requires m.op.EndRow? && m.op.victim == k && m.op.cause.TakenOver?
    ensures WasRead(staleAfter, s, k, m.op.cause.seen, m.op.cause.connectedAt, m.op.cause.readAt)
  {
    assert s.phases[id] == PhaseOf(s, id);
  }

  lemma DeathsStep(staleAfter: int, s: State, id: string, m: Move, k: string)
    requires TableInv(s) && TakeoverInv(staleAfter, s) && LegalOp(staleAfter, s, id, m)
    requires k in Apply(s, id, m).died && Apply(s, id, m).died[k].cause.TakenOver?
    ensures var t := Apply(s, id, m);
            var c := t.died[k].cause;
            WasRead(staleAfter, t, k, c.seen, c.connectedAt, c.readAt) && c.readAt < t.died[k].at
  {
    var t := Apply(s, id, m);
    var c := t.died[k].cause;
    ApplyMovesPhase(s, id, m, k);
    ApplyMovesLife(s, id, m, k);
    if m.op.EndRow? && m.op.victim == k {
      CauseWasRead(staleAfter, s, id, m, k);
    }
    ApplyMovesRow(staleAfter, s, id, m, k);
    ReadingStep(staleAfter, s, t, id, m, k, c.seen, c.connectedAt, c.readAt);
  }

  lemma TakeoverStep(staleAfter: int, s: State, id: string, m: Move)
    requires TableInv(s) && TakeoverInv(staleAfter, s) && Legal(staleAfter, s, id, m)
    ensures TakeoverInv(staleAfter, Apply(s, id, m))
  {
    var t := Apply(s, id, m);
    forall k | k in t.phases && t.phases[k].Ending?
      ensures WasRead(staleAfter, t, t.phases[k].victim, t.phases[k].seen, t.phases[k].connectedAt, t.phases[k].readAt)
    {
      ReadingsStep(staleAfter, s, id, m, k);
    }
    forall k | k in t.died && t.died[k].cause.TakenOver?
      ensures var c := t.died[k].cause;
              WasRead(staleAfter, t, k, c.seen, c.connectedAt, c.readAt) && c.readAt < t.died[k].at
    {
      DeathsStep(staleAfter, s, id, m, k);
    }
    TouchesStep(s, id, m);
  }

  lemma TouchesStep(s: State, id: string, m: Move)
    requires forall k :: k in s.touched ==> s.touched[k].at < s.tick
    ensures forall k :: k in Apply(s, id, m).touched ==> Apply(s, id, m).touched[k].at < Apply(s, id, m).tick
  {
  }

  lemma SessionsStep(staleAfter: int, s: State, t: State, id: string, m: Move)
    requires TableInv(s) && (forall k :: SessionInv(s, k)) && Legal(staleAfter, s, id, m)
    requires forall k :: Moved(s, t, id, k, m)
    ensures forall k :: SessionInv(t, k)
  {
    forall k ensures SessionInv(t, k) {
      assert Moved(s, t, id, k, m) && SessionInv(s, k);
      SessionStep(staleAfter, s, t, id, m, k);
    }
  }

  lemma StandingsStep(staleAfter: int, s: State, t: State, id: string, m: Move)
    requires TableInv(s) && (forall k :: StandingInv(s, k)) && Legal(staleAfter, s, id, m)
    requires t == Apply(s, id, m) && forall k :: Moved(s, t, id, k, m)
    ensures forall k :: StandingInv(t, k)
  {
    forall k ensures StandingInv(t, k) {
      assert Moved(s, t, id, k, m) && StandingInv(s, k);
      ApplyMovesLost(s, id, m, k);
      StandingStep(staleAfter, s, t, id, m, k);
    }
  }

  lemma ApplyMovesAll(staleAfter: int, s: State, id: string, m: Move, t: State)
    requires TableInv(s) && Legal(staleAfter, s, id, m) && t == Apply(s, id, m)
    ensures forall k :: Moved(s, t, id, k, m)
  {
    forall k ensures Moved(s, t, id, k, m) {
      ApplyMoves(staleAfter, s, id, m, k);
    }
  }

  lemma LegalKeepsInv(staleAfter: int, s: State, id: string, m: Move)
    requires Inv(staleAfter, s) && Legal(staleAfter, s, id, m)
    ensures Inv(staleAfter, Apply(s, id, m))
  {
    var t := Apply(s, id, m);
    ApplyMovesAll(staleAfter, s, id, m, t);
    TableStep(staleAfter, s, t, id, m);
    SessionsStep(staleAfter, s, t, id, m);
    StandingsStep(staleAfter, s, t, id, m);
    TakeoverStep(staleAfter, s, id, m);
  }

  lemma {:induction false} RunInv(staleAfter: int, s: State, events: seq<Event>)
    requires Inv(staleAfter, s)
    ensures Inv(staleAfter, RunFrom(staleAfter, s, events))
    decreases |events|
  {
    if events != [] {
      var before, e := events[..|events| - 1], events[|events| - 1];
      RunInv(staleAfter, s, before);
      var t := RunFrom(staleAfter, s, before);
      MovesAreLegal(staleAfter, t, e);
      LegalKeepsInv(staleAfter, t, e.id, MoveOf(staleAfter, t, e));
    }
  }

  lemma InitialInv(staleAfter: int)
    ensures Inv(staleAfter, INITIAL)
  {
  }

  // ---- Main results ------------------------------------------------------

  ghost function Run(staleAfter: int, events: seq<Event>): State {
    RunFrom(staleAfter, INITIAL, events)
  }

  /**
   Two sessions of one trader are never both alive. In any run one of their rows
   ended before the other was inserted, and every heartbeat the earlier session
   ever got accepted had been read and committed by then, while every heartbeat of
   the later one was read after its own row existed.
   */
  lemma ExclusiveOwnership(staleAfter: int, events: seq<Event>, a: string, b: string)
    requires var s := Run(staleAfter, events);
             a in s.rows && b in s.rows && a != b && s.rows[a].traderId == s.rows[b].traderId
    ensures var s := Run(staleAfter, events);
            Before(s, a, b) || Before(s, b, a)
    ensures var s := Run(staleAfter, events);
            Before(s, a, b) ==>
              && (forall x :: x in BeatsOf(s, a) ==> x.stamp < x.commit < s.died[a].at < s.born[b])
              && (forall y :: y in BeatsOf(s, b) ==> s.born[b] < y.stamp < y.commit < y.mark)
  {
    InitialInv(staleAfter);
    RunInv(staleAfter, INITIAL, events);
    var s := Run(staleAfter, events);
    assert SessionInv(s, a) && SessionInv(s, b);
  }

  /** So no two active rows share a trader. */
  lemma OneOwner(staleAfter: int, events: seq<Event>)
    ensures OneActivePerTrader(Run(staleAfter, events).rows)
  {
    InitialInv(staleAfter);
    RunInv(staleAfter, INITIAL, events);
  }

  ghost predicate Displaced(s: State, id: string) {
    id in s.died && s.died[id].cause.TakenOver?
  }

  /** Whoever was displaced had been silent for the stale limit when the connection that displaced it looked. */
  lemma DisplacedOnStaleReading(staleAfter: int, events: seq<Event>, id: string)
    requires Displaced(Run(staleAfter, events), id)
    ensures var cause := Run(staleAfter, events).died[id].cause;
            && staleAfter > 0
            && (cause.seen.lastHeartbeat != 0 ==> cause.connectedAt - cause.seen.lastHeartbeat >= staleAfter)
            && (cause.seen.lastHeartbeat == 0 ==>
                  cause.seen.connectedAt != 0 && cause.connectedAt - cause.seen.connectedAt >= staleAfter)
            && cause.readAt < Run(staleAfter, events).died[id].at
  {
    InitialInv(staleAfter);
    RunInv(staleAfter, INITIAL, events);
  }

  /**
   The row that was ended, against the one that had been read: the same, its end
   aside, exactly when no heartbeat statement came in between or the last one wrote
   the time already there.
   */
  lemma DisplacedRowIsTheOneRead(staleAfter: int, events: seq<Event>, id: string)
    requires Displaced(Run(staleAfter, events), id)
    ensures var s := Run(staleAfter, events);
            var cause := s.died[id].cause;
            && id in s.rows
            && (s.rows[id].(ended := None) == cause.seen <==>
                !TouchedSince(s, id, cause.readAt) || s.touched[id].now == cause.seen.lastHeartbeat)
  {
    InitialInv(staleAfter);
    RunInv(staleAfter, INITIAL, events);
  }

  /**
   A displaced row was stale at the moment it was ended exactly when no heartbeat
   statement came between the reading and the end, provided such a statement wrote a
   time not before the newcomer's own.
   */
  lemma StaleWhenEndedExactly(staleAfter: int, events: seq<Event>, id: string)
    requires Displaced(Run(staleAfter, events), id)
    requires var s := Run(staleAfter, events);
             TouchedSince(s, id, s.died[id].cause.readAt) ==> 0 < s.died[id].cause.connectedAt <= s.touched[id].now
    ensures var s := Run(staleAfter, events);
            var cause := s.died[id].cause;
            && id in s.rows
            && (SilentFor(s.rows[id], staleAfter, cause.connectedAt) <==> !TouchedSince(s, id, cause.readAt))
  {
    InitialInv(staleAfter);
    RunInv(staleAfter, INITIAL, events);
  }

  /**
   When a connection that is gone leaves its row active: nobody displaced it, and
   either it never learned that its insert had taken effect, or it left without
   finalising, or none of its finalising statements got through.
   */
  lemma LeavesRowActiveExactly(staleAfter: int, events: seq<Event>, id: string)
    requires PhaseOf(Run(staleAfter, events), id).Gone?
    ensures var s := Run(staleAfter, events);
            Active(s.rows, id) <==>
              !Displaced(s, id) && match PhaseOf(s, id).left
                                   case NeverOwned => id in s.lost
                                   case Abandoned => true
                                   case Closed(reached) => !reached
  {
    InitialInv(staleAfter);
    RunInv(staleAfter, INITIAL, events);
    assert StandingInv(Run(staleAfter, events), id);
  }

  /** A displaced session: whether one more mark follows is decided by its phase at that moment. */
  ghost predicate Frozen(s: State, t: State, id: string) {
    && id in s.died && id in t.died && t.died[id] == s.died[id] && s.tick <= t.tick
    && (PhaseOf(t, id).Marking? ==> PhaseOf(t, id) == PhaseOf(s, id))
    && (if PhaseOf(s, id).Marking? && !PhaseOf(t, id).Marking? then MarkedLate(s, t, id)
        else BeatsOf(t, id) == BeatsOf(s, id))
  }

  ghost predicate MarkedLate(s: State, t: State, id: string) {
    PhaseOf(s, id).Marking? &&
    exists mark: nat ::
      s.tick <= mark && BeatsOf(t, id) == BeatsOf(s, id) + [Beat(PhaseOf(s, id).stamp, PhaseOf(s, id).commit, mark)]
  }

  lemma FrozenStep(staleAfter: int, s: State, t: State, id: string, mover: string, m: Move)
    requires Frozen(s, t, id) && TableInv(t) && Legal(staleAfter, t, mover, m)
    ensures Frozen(s, Apply(t, mover, m), id)
  {
    ApplyMoves(staleAfter, t, mover, m, id);
    var u := Apply(t, mover, m);
    if mover == id && m.op.MarkBeat? {
      assert BeatsOf(u, id) == BeatsOf(s, id) + [Beat(PhaseOf(s, id).stamp, PhaseOf(s, id).commit, t.tick)];
      assert MarkedLate(s, u, id);
    } else {
      assert BeatsOf(u, id) == BeatsOf(t, id);
      assert MarkedLate(s, t, id) ==> MarkedLate(s, u, id);
    }
  }

  /**
   After a session's row has ended it gets no new heartbeat accepted, however long
   it stays connected. One more in-memory mark follows exactly when a heartbeat
   had been committed and not yet marked when the row ended, and is marked since.
   */
  lemma {:induction false} DisplacedSessionIsFrozen(staleAfter: int, s: State, events: seq<Event>, id: string)
    requires Inv(staleAfter, s) && id in s.died
    ensures Frozen(s, RunFrom(staleAfter, s, events), id)
    decreases |events|
  {
    if events != [] {
      var before, e := events[..|events| - 1], events[|events| - 1];
      DisplacedSessionIsFrozen(staleAfter, s, before, id);
      RunInv(staleAfter, s, before);
      var t := RunFrom(staleAfter, s, before);
      MovesAreLegal(staleAfter, t, e);
      FrozenStep(staleAfter, s, t, id, e.id, MoveOf(staleAfter, t, e));
    }
  }

  /** Whether a mark is still to come is decided by the phase alone. */
  lemma LateMarkPending(staleAfter: int, s: State, id: string)
    requires Inv(staleAfter, s) && id in s.died
    ensures (exists later :: BeatsOf(RunFrom(staleAfter, s, later), id) != BeatsOf(s, id)) <==> PhaseOf(s, id).Marking?
  {
    if PhaseOf(s, id).Marking? {
      var e := Advance(id, 0, NoFault, false, false);
      assert [e][..0] == [];
      assert RunFrom(staleAfter, s, [e]) == Step(staleAfter, s, e);
      assert BeatsOf(Step(staleAfter, s, e), id) ==
             BeatsOf(s, id) + [Beat(PhaseOf(s, id).stamp, PhaseOf(s, id).commit, s.tick)];
      assert |BeatsOf(RunFrom(staleAfter, s, [e]), id)| == |BeatsOf(s, id)| + 1;
    }
    if later :| BeatsOf(RunFrom(staleAfter, s, later), id) != BeatsOf(s, id) {
      DisplacedSessionIsFrozen(staleAfter, s, later, id);
      assert Frozen(s, RunFrom(staleAfter, s, later), id);
      assert PhaseOf(s, id).Marking?;
    }
  }

  /** So a mark follows the end of a session's row exactly when the row ended between commit and mark. */
  lemma LateMarkExactly(staleAfter: int, events: seq<Event>, later: seq<Event>, id: string)
    requires id in Run(staleAfter, events).died
    ensures var s, t := Run(staleAfter, events), RunFrom(staleAfter, Run(staleAfter, events), later);
            BeatsOf(t, id) != BeatsOf(s, id) <==> PhaseOf(s, id).Marking? && !PhaseOf(t, id).Marking?
  {
    InitialInv(staleAfter);
    RunInv(staleAfter, INITIAL, events);
    DisplacedSessionIsFrozen(staleAfter, Run(staleAfter, events), later, id);
  }

  /**
   The in-memory mark itself can come after the successor's row exists: a
   heartbeat commits, the session is displaced on the strength of an older
   reading, and only then does the heartbeat reach memory.
   */
  lemma LateMark() returns (events: seq<Event>)
    ensures var s := Run(10, events);
            && Before(s, "a", "b") && "a" in s.rows && "b" in s.rows && s.rows["a"].traderId == s.rows["b"].traderId
            && |BeatsOf(s, "a")| == 1 && s.born["b"] < BeatsOf(s, "a")[0].mark
  {
    LateMarkRun();
    events := LateMarkEvents();
  }

  /** In the same run the displaced row carries a heartbeat that is not stale. */
  lemma FreshRowDisplaced() returns (events: seq<Event>)
    ensures var s := Run(10, events);
            Displaced(s, "a") && "a" in s.rows && !SilentFor(s.rows["a"], 10, s.died["a"].cause.connectedAt)
  {
    LateMarkRun();
    events := LateMarkEvents();
  }

  function LateMarkEvent(i: nat): Event {
    if i == 0 then Register("a", 7, 1)
    else if i == 2 then Heartbeat("a")
    else if i == 3 then Register("b", 7, 100)
    else if i == 1 then Go("a", 1)
    else if i == 6 || i == 9 then Go("a", 99)
    else Go("b", 100)
  }

  function LateMarkState(i: nat): State {
    if i == 0 then INITIAL
    else if i == 1 then ASKED
    else if i == 2 then OWNED
    else if i == 3 then BEATING
    else if i == 4 then RIVALLED
    else if i == 5 then HALFWAY
    else if i == 6 then READY
    else if i == 7 then COMMITTED
    else if i == 8 then DISPLACED
    else if i == 9 then SUCCEEDED
    else MARKED
  }

  function LateMarkEvents(): seq<Event> {
    seq(10, i requires 0 <= i < 10 => LateMarkEvent(i))
  }

  lemma LateMarkStep(i: nat)
    requires i < 10
    ensures LateMarkState(i + 1) == Step(10, LateMarkState(i), LateMarkEvent(i))
  {
    if i < 2 {
      ToOwned();
    } else if i < 4 {
      ToRivalled();
    } else if i == 4 {
      ToHalfway();
    } else if i == 5 {
      ToReady();
    } else if i == 6 {
      ToCommitted();
    } else if i == 7 {
      ToDisplaced();
    } else if i == 8 {
      ToSucceeded();
    } else {
      ToMarked();
    }
  }

  lemma LateMarkRun()
    ensures Run(10, LateMarkEvents()) == MARKED
  {
    var states := seq(11, i requires 0 <= i < 11 => LateMarkState(i));
    forall i | 0 <= i < 10 ensures states[i + 1] == Step(10, states[i], LateMarkEvents()[i]) {
      LateMarkStep(i);
    }
    Unroll(10, INITIAL, LateMarkEvents(), states);
  }

  function Go(id: string, now: int): Event {
    Advance(id, now, NoFault, false, false)
  }

  /** Session a is about to write a heartbeat; session b has been refused once and looks at a's row. */
  const HALFWAY: State := State(5, map["a" := Row(7, 1, 1, None)], map["a" := 1], map[],
                                map["a" := Beating(2), "b" := Reading(7, 100)], map[], map[], {})

  const ASKED: State := INITIAL.(tick := 1, phases := map["a" := Inserting(7, 1)])

  const OWNED: State := ASKED.(tick := 2, phases := map["a" := Owner], rows := HALFWAY.rows, born := HALFWAY.born)

  const BEATING: State := OWNED.(tick := 3, phases := map["a" := Beating(2)])

  const RIVALLED: State := BEATING.(tick := 4, phases := BEATING.phases["b" := Inserting(7, 100)])

  lemma ToOwned()
    ensures Step(10, INITIAL, Register("a", 7, 1)) == ASKED
    ensures Step(10, ASKED, Go("a", 1)) == OWNED
  {
  }

  lemma ToRivalled()
    ensures Step(10, OWNED, Heartbeat("a")) == BEATING
    ensures Step(10, BEATING, Register("b", 7, 100)) == RIVALLED
  {
  }

  lemma ToHalfway()
    ensures Step(10, RIVALLED, Go("b", 100)) == HALFWAY
  {
    assert !CanInsert(RIVALLED.rows, "b", 7) by {
      assert "a" in RIVALLED.rows && RIVALLED.rows["a"] == Row(7, 1, 1, None);
    }
    assert MoveOf(10, RIVALLED, Go("b", 100)) == Move(NoOp, Reading(7, 100));
  }

  const READY: State :=
    HALFWAY.(tick := 6, phases := map["a" := Beating(2), "b" := Ending(7, 100, "a", Row(7, 1, 1, None), 5)])

  const COMMITTED: State :=
    READY.(tick := 7, phases := READY.phases["a" := Marking(2, 6)], rows := map["a" := Row(7, 1, 99, None)],
           touched := map["a" := Touched(6, 99)])

  const DISPLACED: State :=
    COMMITTED.(tick := 8, phases := COMMITTED.phases["b" := Reinserting(7, 100)],
               rows := map["a" := Row(7, 1, 99, Some(TimedOut))],
               died := map["a" := Death(7, TakenOver(Row(7, 1, 1, None), 100, 5))])

  const SUCCEEDED: State :=
    DISPLACED.(tick := 9, phases := DISPLACED.phases["b" := Owner],
               rows := DISPLACED.rows["b" := Row(7, 100, 100, None)], born := DISPLACED.born["b" := 8])

  const MARKED: State :=
    SUCCEEDED.(tick := 10, phases := SUCCEEDED.phases["a" := Owner], beats := map["a" := [Beat(2, 6, 9)]])

  lemma ToReady()
    ensures Step(10, HALFWAY, Go("b", 100)) == READY
  {
    assert ActivesOf(HALFWAY, 7) == {"a"};
  }

  lemma ToCommitted()
    ensures Step(10, READY, Go("a", 99)) == COMMITTED
  {
  }

  lemma ToDisplaced()
    ensures Step(10, COMMITTED, Go("b", 100)) == DISPLACED
  {
  }

  lemma ToSucceeded()
    ensures Step(10, DISPLACED, Go("b", 100)) == SUCCEEDED
  {
  }

  lemma ToMarked()
    ensures Step(10, SUCCEEDED, Go("a", 99)) == MARKED
  {
    assert MoveOf(10, SUCCEEDED, Go("a", 99)) == Move(MarkBeat(2, 6), Owner);
    assert BeatsOf(SUCCEEDED, "a") == [];
    assert BeatsOf(SUCCEEDED, "a") + [Beat(2, 6, 9)] == [Beat(2, 6, 9)];
    assert SUCCEEDED.beats["a" := [Beat(2, 6, 9)]] == MARKED.beats;
  }

  lemma {:induction false} Unroll(staleAfter: int, s: State, events: seq<Event>, states: seq<State>)
    requires |states| == |events| + 1 && states[0] == s
    requires forall i :: 0 <= i < |events| ==> states[i + 1] == Step(staleAfter, states[i], events[i])
    ensures RunFrom(staleAfter, s, events) == states[|events|]
    decreases |events|
  {
    if events != [] {
      var n := |events| - 1;
      Unroll(staleAfter, s, events[..n], states[..n + 1]);
    }
  }
}
