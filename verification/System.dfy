/**
 All connections of one handler and the scheduler beside them, interleaved
 arbitrarily. A step is one critical section on the shared state together with
 the connection-local work around it; the read-error exit takes three: count,
 clean up, return. Session ids are fresh, as random 96-bit ids are taken to be.
 */
module System {
  import opened Sequences
  import opened Sessions
  import opened TraderNames
  import opened Protocol
  import HandlerLoop
  import Selection
  import SelectionProperties
  import AssignmentDedup
  import Engine

  datatype Phase = Serving | Closing(failure: ReadFailure) | Returning(exit: Exit) | Done(exit: Exit)

  /** reason: what recordDisconnect was called with for this connection, if it was. */
  datatype Conn = Conn(local: Local, phase: Phase, reason: Option<string>)

  datatype World = World(conns: map<string, Conn>, shared: Shared, engine: Engine.State)

  const INITIAL: World := World(map[], NO_CONNECTIONS, Engine.State(map[], [], 0, map[]))

  datatype Event =
    | Connect(id: string, now: int)
    | Receive(id: string, frame: Frame)
    | ReadFails(id: string, failure: ReadFailure)
    | CleanUp(id: string, stampMs: nat)
    | Return(id: string)
    | Schedule(input: Engine.CycleInput)

  /** An event that cannot happen in the present world. */
  ghost predicate Enabled(w: World, e: Event) {
    match e
    case Connect(id, _) => id != "" && id !in w.conns
    case Receive(id, _) => id in w.conns && w.conns[id].phase == Serving
    case ReadFails(id, _) => id in w.conns && w.conns[id].phase == Serving
    case CleanUp(id, _) => id in w.conns && w.conns[id].phase.Closing?
    case Return(id) => id in w.conns && w.conns[id].phase.Returning?
    case Schedule(input) =>
      input.snapshots.Some? ==> HandlerLoop.ListsSessions(input.snapshots.value, w.shared.sessions)
  }

  ghost function Received(c: Config, conn: Conn, f: Frame): Conn
    requires c.Valid()
  {
    var o := OnFrame(c, conn.local, f);
    Conn(o.local, if o.exit.Some? then Returning(o.exit.value) else Serving,
         if o.effect.CountDisconnect? then Some(o.effect.reason) else conn.reason)
  }

  ghost function Step(c: Config, ec: Engine.Config, w: World, e: Event): World
    requires c.Valid() && ec.Valid()
  {
    if !Enabled(w, e) then w
    else
      match e
      case Connect(id, now) =>
        w.(conns := w.conns[id := Conn(Fresh(id, now), Serving, None)],
           shared := w.shared.(active := w.shared.active + 1, total := w.shared.total + 1))
      case Receive(id, f) =>
        w.(conns := w.conns[id := Received(c, w.conns[id], f)],
           shared := ApplyEffect(w.shared, OnFrame(c, w.conns[id].local, f).effect))
      case ReadFails(id, failure) =>
        w.(conns := w.conns[id := w.conns[id].(phase := Closing(failure), reason := Some(Classify(failure).0))],
           shared := Count(w.shared, Classify(failure).0, Classify(failure).1))
      case CleanUp(id, stampMs) =>
        var conn := w.conns[id];
        var session := Closed(conn.local.session, conn.phase.failure, stampMs);
        w.(conns := w.conns[id := conn.(local := conn.local.(session := session), phase := Returning(ReadError))],
           shared := w.shared.(sessions := w.shared.sessions - {id}))
      case Return(id) =>
        w.(conns := w.conns[id := w.conns[id].(phase := Done(w.conns[id].phase.exit))],
           shared := w.shared.(active := w.shared.active - 1))
      case Schedule(input) => w.(engine := Engine.Cycle(ec, w.engine, input).0)
  }

  ghost function RunFrom(c: Config, ec: Engine.Config, w: World, events: seq<Event>): World
    requires c.Valid() && ec.Valid()
    decreases |events|
  {
    if events == [] then w
    else Step(c, ec, RunFrom(c, ec, w, events[..|events| - 1]), events[|events| - 1])
  }

  ghost function Run(c: Config, ec: Engine.Config, events: seq<Event>): World
    requires c.Valid() && ec.Valid()
  {
    RunFrom(c, ec, INITIAL, events)
  }

  // ---- What one frame keeps ----------------------------------------------

  /** With persistence, the flag that a row was created is set exactly when the connection is registered. */
  ghost predicate FlagMatches(c: Config, l: Local) {
    l.persisted <==> c.persistence && l.session.traderId != ""
  }

  ghost predicate LocalInv(c: Config, l: Local) {
    Consistent(l.session) && FlagMatches(c, l)
  }

  /** Publishing is the only way a frame changes the session, and what is published is the new projection. */
  ghost predicate Keeps(c: Config, l: Local, o: Outcome) {
    && LocalInv(c, o.local)
    && o.local.session.sessionId == l.session.sessionId
    && (l.session.traderId != "" ==> o.local.session.traderId == l.session.traderId)
    && (o.effect.Publish? ==>
          o.effect.snapshot == Project(o.local.session) && o.local.session.traderId != "" && o.exit.None?)
    && (!o.effect.Publish? ==> o.local.session == l.session)
    && (o.effect.CountDisconnect? <==> o.exit == Some(SequenceGap))
    && (o.effect.CountDisconnect? ==> o.effect == CountDisconnect(CLOSE_4009, true))
    && (o.exit == Some(DuplicateSession) ==> l.session.traderId == "")
    && o.exit != Some(ReadError)
  }

  lemma CompletionKeeps(c: Config, l: Local, f: Frame, q: RegisterRequest, canonical: string, dbId: int, status: string)
    requires Consistent(l.session) && l.session.traderId == "" && l.persisted == c.persistence && Trim(canonical) != ""
    ensures Keeps(c, l, CompleteRegistration(c, l, f, q, canonical, dbId, status))
  {
    NeverBlank(canonical);
  }

  lemma RegisterKeeps(c: Config, l: Local, f: Frame, m: Envelope)
    requires c.Valid() && LocalInv(c, l)
    ensures Keeps(c, l, Register(c, l, f, m))
  {
    if m.kind == "request" && l.session.traderId == "" && m.register.Some? && Trim(f.outside.certificateCn) != "" {
      HandlerLoop.TrimTwice(f.outside.certificateCn);
      if !c.persistence {
        CompletionKeeps(c, l, f, m.register.value, Trim(f.outside.certificateCn), 0, "");
      } else if f.outside.identity.Some? && f.outside.create.Created? {
        var identity := f.outside.identity.value;
        HandlerLoop.TrimTwice(identity.traderId);
        CompletionKeeps(c, l.(persisted := true), f, m.register.value,
                        Canonical(f.outside.certificateCn, identity), identity.dbId, identity.status);
      }
    }
  }

  /** Same session, telemetry aside. */
  ghost predicate SameIdentity(s: Session, t: Session) {
    t.sessionId == s.sessionId && t.traderId == s.traderId
  }

  lemma ProfileKeeps(s: Session, latencies: Latencies)
    requires Consistent(s)
    ensures Consistent(WithProfile(s, latencies)) && SameIdentity(s, WithProfile(s, latencies))
  {
  }

  lemma TelemetryKeeps(s: Session, load: Option<real>, tradeLoad: Option<real>)
    requires Consistent(s)
    ensures Consistent(WithTelemetry(s, load, tradeLoad)) && SameIdentity(s, WithTelemetry(s, load, tradeLoad))
  {
  }

  lemma BeatKeeps(s: Session, stampMs: Millis, q: HeartbeatRequest)
    requires Consistent(s) && s.traderId != ""
    ensures Consistent(Beaten(s, stampMs, q)) && SameIdentity(s, Beaten(s, stampMs, q))
  {
    var beat := s.(state := Selection.Active, lastHeartbeatMs := stampMs);
    var measured := if q.latencies != map[] then beat.(exchangeLatencies := q.latencies) else beat;
    assert Consistent(measured);
    ProfileKeeps(measured, q.latencies);
    TelemetryKeeps(WithProfile(measured, q.latencies), q.load, q.tradeLoad);
  }

  lemma HeartbeatKeeps(c: Config, l: Local, f: Frame, m: Envelope)
    requires c.Valid() && LocalInv(c, l)
    ensures Keeps(c, l, Heartbeat(c, l, f, m))
  {
    if l.session.traderId != "" && m.heartbeat.Some? {
      BeatKeeps(l.session, f.outside.stampMs, m.heartbeat.value);
    }
  }

  lemma LatencyKeeps(c: Config, l: Local, m: Envelope)
    requires c.Valid() && LocalInv(c, l)
    ensures Keeps(c, l, LatencyReport(l, m))
  {
    if m.latency.Some? {
      ProfileKeeps(l.session.(exchangeLatencies := m.latency.value.latencies), m.latency.value.latencies);
    }
  }

  lemma ScreenKeeps(c: Config, l: Local, f: Frame)
    ensures var s := Screen(c, l, f).0; s.session == l.session && s.persisted == l.persisted
  {
  }

  lemma FrameKeeps(c: Config, l: Local, f: Frame)
    requires c.Valid() && LocalInv(c, l)
    ensures Keeps(c, l, OnFrame(c, l, f))
  {
    ScreenKeeps(c, l, f);
    var (screened, stage) := Screen(c, l, f);
    if stage == Reached {
      var m := f.body.value;
      if m.action == "trader.register" {
        RegisterKeeps(c, screened, f, m);
      } else if m.action == "trader.heartbeat" {
        HeartbeatKeeps(c, screened, f, m);
      } else if m.action == "latency.test_result" {
        LatencyKeeps(c, screened, m);
      }
    }
  }

  // ---- Snapshots agree with sessions -------------------------------------

  predicate LeftByReadError(p: Phase) {
    (p.Returning? || p.Done?) && p.exit == ReadError
  }

  ghost predicate ReasonMatches(conn: Conn) {
    match conn.phase
    case Serving => conn.reason.None?
    case Closing(failure) => conn.reason == Some(Classify(failure).0)
    case Returning(exit) => ReasonFits(exit, conn.reason)
    case Done(exit) => ReasonFits(exit, conn.reason)
  }

  /** The classifications of a read error. */
  predicate ReadReason(reason: string) {
    reason == CLOSE_4009 || reason == "client_close" || reason == "timeout" || reason == "read_error"
  }

  lemma ClassifiedReason(e: ReadFailure)
    ensures ReadReason(Classify(e).0)
    ensures Classify(e).1 <==> Classify(e).0 == CLOSE_4009
  {
  }

  ghost predicate ReasonFits(exit: Exit, reason: Option<string>) {
    match exit
    case ReadError => reason.Some? && ReadReason(reason.value)
    case SequenceGap => reason == Some(CLOSE_4009)
    case _ => reason.None?
  }

  ghost predicate ConnInv(c: Config, id: string, conn: Conn) {
    && id != "" && conn.local.session.sessionId == id
    && ReasonMatches(conn)
    && FlagMatches(c, conn.local)
    && (if LeftByReadError(conn.phase) then conn.local.session.state == Selection.Disconnected
        else Consistent(conn.local.session))
  }

  /**
   A snapshot exists exactly for a registered session that was not left by the read-error exit, and
   it is its projection.
  */
  ghost predicate Agrees(id: string, conns: map<string, Conn>, sessions: map<string, Selection.Snapshot>) {
    && (id in sessions <==> id in conns && conns[id].local.session.traderId != "" && !LeftByReadError(conns[id].phase))
    && (id in sessions ==> id in conns && sessions[id] == Project(conns[id].local.session))
  }

  ghost predicate WorldInv(c: Config, w: World) {
    && (forall id :: id in w.conns ==> ConnInv(c, id, w.conns[id]))
    && (forall id :: Agrees(id, w.conns, w.shared.sessions))
  }

  /** Other connections' entries are untouched by a step of one connection. */
  lemma OthersKeep(c: Config, w: World, v: World, id: string)
    requires WorldInv(c, w)
    requires id in v.conns && v.conns == w.conns[id := v.conns[id]] && ConnInv(c, id, v.conns[id])
    requires v.shared.sessions - {id} == w.shared.sessions - {id} && Agrees(id, v.conns, v.shared.sessions)
    ensures WorldInv(c, v)
  {
    forall k ensures Agrees(k, v.conns, v.shared.sessions) {
      if k != id {
        assert Agrees(k, w.conns, w.shared.sessions);
        assert k in v.shared.sessions <==> k in v.shared.sessions - {id};
        assert k in w.shared.sessions <==> k in w.shared.sessions - {id};
        assert k in v.shared.sessions ==> v.shared.sessions[k] == (v.shared.sessions - {id})[k];
      }
    }
  }

  lemma ReceiveKeeps(c: Config, ec: Engine.Config, w: World, id: string, f: Frame)
    requires c.Valid() && ec.Valid() && WorldInv(c, w) && Enabled(w, Receive(id, f))
    ensures WorldInv(c, Step(c, ec, w, Receive(id, f)))
  {
    var v := Step(c, ec, w, Receive(id, f));
    assert ConnInv(c, id, w.conns[id]) && Agrees(id, w.conns, w.shared.sessions);
    FrameKeeps(c, w.conns[id].local, f);
    OthersKeep(c, w, v, id);
  }

  lemma StepKeeps(c: Config, ec: Engine.Config, w: World, e: Event)
    requires c.Valid() && ec.Valid() && WorldInv(c, w)
    ensures WorldInv(c, Step(c, ec, w, e))
  {
    if Enabled(w, e) && !e.Schedule? {
      var v := Step(c, ec, w, e);
      assert Agrees(e.id, w.conns, w.shared.sessions);
      if e.Receive? {
        ReceiveKeeps(c, ec, w, e.id, e.frame);
      } else {
        assert e.id in w.conns ==> ConnInv(c, e.id, w.conns[e.id]);
        if e.CleanUp? {
          ClassifiedReason(w.conns[e.id].phase.failure);
        }
        OthersKeep(c, w, v, e.id);
      }
    }
  }

  /**
   At every loop head of every connection, under any interleaving: snapshots and
   sessions agree, an identity is set exactly when the session has left its first
   state, and with persistence exactly when the flag that its row was created is set.
   */
  lemma {:induction false} SnapshotsAgree(c: Config, ec: Engine.Config, events: seq<Event>)
    requires c.Valid() && ec.Valid()
    ensures WorldInv(c, Run(c, ec, events))
  {
    if events != [] {
      SnapshotsAgree(c, ec, events[..|events| - 1]);
      StepKeeps(c, ec, Run(c, ec, events[..|events| - 1]), events[|events| - 1]);
    }
  }

  // ---- Assignment safety ---------------------------------------------------

  /** What a connection must be for the scheduler to choose its session at a given time. */
  predicate FitToAssign(ec: Engine.Config, conn: Conn, nowUnix: int) {
    var s := conn.local.session;
    && !LeftByReadError(conn.phase)
    && s.traderId != ""
    && s.traderStatus in {"", "active"}
    && s.state == Selection.Active
    && (ec.taskType == Selection.TradeTask ==> s.role != "monitor")
    && s.lastHeartbeatMs > 0
    && (nowUnix - s.lastHeartbeatMs / 1000) * 1_000_000_000 <= ec.healthyWindow
  }

  lemma PublishedSession(c: Config, w: World, id: string)
    requires WorldInv(c, w) && id in w.shared.sessions
    ensures id in w.conns && w.shared.sessions[id] == Project(w.conns[id].local.session)
            && w.shared.sessions[id].sessionId == id
  {
    assert Agrees(id, w.conns, w.shared.sessions);
    assert ConnInv(c, id, w.conns[id]);
  }

  lemma ListedSessionsAreDistinct(c: Config, w: World, snapshots: seq<Selection.Snapshot>)
    requires WorldInv(c, w) && HandlerLoop.ListsSessions(snapshots, w.shared.sessions)
    ensures SelectionProperties.DistinctSessions(snapshots)
    ensures forall s :: s in snapshots ==> s.sessionId in w.shared.sessions && s == w.shared.sessions[s.sessionId]
  {
    var ids :| HandlerLoop.ListedAs(ids, snapshots, w.shared.sessions);
    forall i | 0 <= i < |ids| ensures snapshots[i].sessionId == ids[i] {
      PublishedSession(c, w, ids[i]);
    }
  }

  /**
   A published session passes the scheduler's filter exactly when its connection is fit, the first
   second of the epoch aside.
  */
  lemma EligibleExactly(c: Config, ec: Engine.Config, events: seq<Event>, id: string, nowUnix: int)
    requires c.Valid() && ec.Valid()
    requires id in Run(c, ec, events).shared.sessions
    ensures var w := Run(c, ec, events);
            && id in w.conns
            && (Selection.Eligible(ec.taskType, ec.healthyWindow, nowUnix, w.shared.sessions[id]) <==>
                FitToAssign(ec, w.conns[id], nowUnix) && w.conns[id].local.session.lastHeartbeatMs >= 1000)
  {
    SnapshotsAgree(c, ec, events);
    PublishedSession(c, Run(c, ec, events), id);
    assert Agrees(id, Run(c, ec, events).conns, Run(c, ec, events).shared.sessions);
  }

  /** The candidate of a cycle that gets past selection. */
  function SelectedIn(r: Engine.Report): Option<Selection.Candidate> {
    if r.Cycled? then r.selected else None
  }

  /** Every session the scheduler selects in any run of the whole system, as of the snapshots its cycle reads. */
  lemma OnlyFitSessionsAreChosen(c: Config, ec: Engine.Config, events: seq<Event>, input: Engine.CycleInput)
    requires c.Valid() && ec.Valid()
    ensures var w := Run(c, ec, events);
            Enabled(w, Schedule(input)) && SelectedIn(Engine.Cycle(ec, w.engine, input).1).Some? ==>
            var chosen := SelectedIn(Engine.Cycle(ec, w.engine, input).1).value;
            && chosen.sessionId in w.conns && w.conns[chosen.sessionId].local.session.traderId == chosen.traderId
            && FitToAssign(ec, w.conns[chosen.sessionId], AssignmentDedup.Unix(input.now))
  {
    var w := Run(c, ec, events);
    SnapshotsAgree(c, ec, events);
    if Enabled(w, Schedule(input)) && SelectedIn(Engine.Cycle(ec, w.engine, input).1).Some? {
      ChosenIsFit(c, ec, w, input);
    }
  }

  lemma SelectedIsHead(ec: Engine.Config, s: Engine.State, input: Engine.CycleInput)
    requires ec.Valid() && SelectedIn(Engine.Cycle(ec, s, input).1).Some?
    ensures input.snapshots.Some? && Engine.Candidates(ec, input) != []
    ensures SelectedIn(Engine.Cycle(ec, s, input).1).value == Engine.Candidates(ec, input)[0]
  {
  }

  lemma HeadIsEligible(ec: Engine.Config, input: Engine.CycleInput) returns (s: Selection.Snapshot)
    requires ec.Valid() && input.snapshots.Some? && SelectionProperties.DistinctSessions(input.snapshots.value)
    requires Engine.Candidates(ec, input) != []
    ensures s in input.snapshots.value
    ensures Selection.Eligible(ec.taskType, ec.healthyWindow, AssignmentDedup.Unix(input.now), s)
    ensures s.sessionId == Engine.Candidates(ec, input)[0].sessionId
            && s.traderId == Engine.Candidates(ec, input)[0].traderId
  {
    var p, nowUnix := Engine.PolicyOf(ec, input), AssignmentDedup.Unix(input.now);
    SelectionProperties.HeadIsLeast(p, nowUnix, input.snapshots.value);
    s :| s in input.snapshots.value
      && SelectionProperties.Final(p, nowUnix, s) == Some(Engine.Candidates(ec, input)[0]);
    SelectionProperties.FinalKeepsIdentity(p, nowUnix, s);
  }

  lemma ChosenIsFit(c: Config, ec: Engine.Config, w: World, input: Engine.CycleInput)
    requires c.Valid() && ec.Valid() && WorldInv(c, w)
    requires Enabled(w, Schedule(input)) && SelectedIn(Engine.Cycle(ec, w.engine, input).1).Some?
    ensures var chosen := SelectedIn(Engine.Cycle(ec, w.engine, input).1).value;
            && chosen.sessionId in w.conns && chosen.sessionId in w.shared.sessions
            && w.conns[chosen.sessionId].local.session.traderId == chosen.traderId
            && FitToAssign(ec, w.conns[chosen.sessionId], AssignmentDedup.Unix(input.now))
  {
    SelectedIsHead(ec, w.engine, input);
    ListedSessionsAreDistinct(c, w, input.snapshots.value);
    var s := HeadIsEligible(ec, input);
    PublishedSession(c, w, s.sessionId);
    assert Agrees(s.sessionId, w.conns, w.shared.sessions);
  }

  // ---- After an exit -------------------------------------------------------

  /** A connection that no longer serves: its session is frozen or gone, and no snapshot of it appears again. */
  ghost predicate FrozenSince(w: World, v: World, id: string) {
    && id in w.conns && id in v.conns && w.conns[id].phase != Serving && v.conns[id].phase != Serving
    && (id in v.shared.sessions ==> id in w.shared.sessions && v.shared.sessions[id] == w.shared.sessions[id])
    && (!LeftByReadError(v.conns[id].phase) ==> v.conns[id].local.session == w.conns[id].local.session)
    && (!w.conns[id].phase.Closing? ==>
          && v.conns[id].local == w.conns[id].local
          && !v.conns[id].phase.Closing? && v.conns[id].phase.exit == w.conns[id].phase.exit
          && (id in v.shared.sessions <==> id in w.shared.sessions))
  }

  lemma FrozenStep(c: Config, ec: Engine.Config, w: World, v: World, id: string, e: Event)
    requires c.Valid() && ec.Valid() && WorldInv(c, v)
    requires id in w.conns && w.conns[id].phase != Serving && FrozenSince(w, v, id)
    ensures FrozenSince(w, Step(c, ec, v, e), id)
  {
    if Enabled(v, e) && e.Receive? {
      assert ConnInv(c, e.id, v.conns[e.id]);
      FrameKeeps(c, v.conns[e.id].local, e.frame);
    }
  }

  /**
   Once a connection has ended, by whichever exit, its snapshot never changes. The
   read-error exit removes it; the other exits leave it in the map for good.
   */
  lemma {:induction false} EndedSessionsStayFrozen(c: Config, ec: Engine.Config, w: World, events: seq<Event>,
                                                   id: string)
    requires c.Valid() && ec.Valid() && WorldInv(c, w)
    requires id in w.conns && w.conns[id].phase != Serving
    ensures WorldInv(c, RunFrom(c, ec, w, events)) && FrozenSince(w, RunFrom(c, ec, w, events), id)
    decreases |events|
  {
    if events != [] {
      var before, e := events[..|events| - 1], events[|events| - 1];
      EndedSessionsStayFrozen(c, ec, w, before, id);
      StepKeeps(c, ec, RunFrom(c, ec, w, before), e);
      FrozenStep(c, ec, w, RunFrom(c, ec, w, before), id, e);
    }
  }

  /** The next cycle, if it is this one, selects the session. */
  ghost predicate Chooses(ec: Engine.Config, w: World, input: Engine.CycleInput, id: string)
    requires ec.Valid()
  {
    && Enabled(w, Schedule(input))
    && SelectedIn(Engine.Cycle(ec, w.engine, input).1).Some?
    && SelectedIn(Engine.Cycle(ec, w.engine, input).1).value.sessionId == id
  }

  /**
   So an ended connection is never chosen later than its last heartbeat plus the
   healthy window, whatever happens after it ended.
   */
  lemma EndedSessionsAgeOut(c: Config, ec: Engine.Config, before: seq<Event>, id: string,
                            after: seq<Event>, input: Engine.CycleInput)
    requires c.Valid() && ec.Valid()
    requires id in Run(c, ec, before).conns && Run(c, ec, before).conns[id].phase != Serving
    ensures var s := Run(c, ec, before).conns[id].local.session;
            Chooses(ec, RunFrom(c, ec, Run(c, ec, before), after), input, id) ==>
            && s.state == Selection.Active
            && input.now / SECOND <= s.lastHeartbeatMs / 1000 + Selection.WindowSeconds(ec.healthyWindow)
            && input.now < (s.lastHeartbeatMs / 1000 + Selection.WindowSeconds(ec.healthyWindow) + 1) * SECOND
  {
    var w := Run(c, ec, before);
    SnapshotsAgree(c, ec, before);
    EndedSessionsStayFrozen(c, ec, w, after, id);
    if Chooses(ec, RunFrom(c, ec, w, after), input, id) {
      ChosenIsFit(c, ec, RunFrom(c, ec, w, after), input);
    }
  }
}
