/**
 Session ownership in the database and the connections' loops in one run. The
 statements of a connection (Ownership.dfy) and its loop (System.dfy) meet in two
 frames: a registration is answered by what its statements came to, and a heartbeat
 is marked in memory once the database has accepted it. Until then the loop reads
 nothing else.
 */
module Displacement {
  import O = Ownership
  import P = Protocol
  import S = System
  import opened Sequences
  import opened TraderNames
  import Engine
  import Selection

  /** pending: the frame whose statements a connection is executing. */
  datatype Joint = Joint(world: S.World, owners: O.State, pending: map<string, P.Frame>)

  const INITIAL: Joint := Joint(S.INITIAL, O.INITIAL, map[])

  datatype Event =
    | Loop(e: S.Event)
    | Statement(s: O.Event)
    | BeginRegistration(id: string, frame: P.Frame)
    | Answer(s: O.Event)
    | Begin(id: string, frame: P.Frame)
    | Mark(id: string)

  datatype Config = Config(handler: P.Config, engine: Engine.Config, staleAfter: int) {
    ghost predicate Valid() {
      handler.Valid() && engine.Valid()
    }
  }

  /** A frame the loop would take as a heartbeat, once persisted. */
  ghost predicate AcceptsBeat(c: P.Config, w: S.World, id: string, f: P.Frame)
    requires c.Valid()
  {
    && S.Enabled(w, S.Receive(id, f))
    && var o := P.OnFrame(c, w.conns[id].local, f);
       o.stage == P.Reached && f.body.Some? && f.body.value.action == "trader.heartbeat" && o.effect.Publish?
  }

  /** A frame that gets as far as creating a session row. */
  ghost predicate AsksCreate(c: P.Config, l: P.Local, f: P.Frame) {
    var (screened, stage) := P.Screen(c, l, f);
    && c.persistence && stage == P.Reached && f.body.Some?
    && f.body.value.action == "trader.register" && f.body.value.kind == "request"
    && screened.session.traderId == "" && f.body.value.register.Some?
    && Trim(f.outside.certificateCn) != "" && f.outside.identity.Some?
  }

  predicate InRegistration(p: O.Phase) {
    p.Inserting? || p.Reading? || p.Ending? || p.Verifying? || p.Reinserting?
  }

  predicate InFlight(p: O.Phase) {
    p.Beating? || p.Checking? || p.Marking?
  }

  /** The statement that ends a registration, with or without a row. */
  ghost predicate EndsRegistration(c: Config, s: O.State, e: O.Event) {
    e.Advance? && InRegistration(O.PhaseOf(s, e.id)) && !InRegistration(O.MoveOf(c.staleAfter, s, e).phase)
  }

  /** The frame with the answer its statements came to. */
  function Answered(f: P.Frame, p: O.Phase): P.Frame {
    var answer := if p.Owner? then P.Created else if p.Gone? then P.ActiveSessionExists else P.CreateFailed;
    f.(outside := f.outside.(create := answer))
  }

  ghost predicate Enabled(c: Config, j: Joint, e: Event)
    requires c.Valid()
  {
    match e
    case Loop(e) =>
      e.Receive? && S.Enabled(j.world, e) ==>
        && (O.PhaseOf(j.owners, e.id).Idle? || O.PhaseOf(j.owners, e.id).Owner?)
        && !AcceptsBeat(c.handler, j.world, e.id, e.frame)
        && !AsksCreate(c.handler, j.world.conns[e.id].local, e.frame)
    case Statement(s) =>
      && s.id in j.world.conns && !s.Heartbeat? && !s.Register?
      && !(s.Advance? && O.PhaseOf(j.owners, s.id).Marking?) && !EndsRegistration(c, j.owners, s)
    case BeginRegistration(id, f) =>
      && O.PhaseOf(j.owners, id).Idle? && S.Enabled(j.world, S.Receive(id, f))
      && AsksCreate(c.handler, j.world.conns[id].local, f)
    case Answer(s) =>
      && EndsRegistration(c, j.owners, s) && s.id in j.pending
      && S.Enabled(j.world, S.Receive(s.id, j.pending[s.id]))
      && AsksCreate(c.handler, j.world.conns[s.id].local, j.pending[s.id])
    case Begin(id, _) => O.PhaseOf(j.owners, id).Owner?
    case Mark(id) =>
      O.PhaseOf(j.owners, id).Marking? && id in j.pending && AcceptsBeat(c.handler, j.world, id, j.pending[id])
  }

  function Marking(id: string): O.Event {
    O.Advance(id, 0, O.NoFault, false, false)
  }

  /** CreateSession is asked with the frame's identity and time stamp. */
  function Registration(id: string, f: P.Frame): O.Event {
    O.Register(id, if f.outside.identity.Some? then f.outside.identity.value.dbId else 0, f.outside.stampMs * 1_000_000)
  }

  ghost function Received(c: Config, j: Joint, id: string, f: P.Frame): S.World
    requires c.Valid()
  {
    S.Step(c.handler, c.engine, j.world, S.Receive(id, f))
  }

  ghost function Step(c: Config, j: Joint, e: Event): Joint
    requires c.Valid()
  {
    if !Enabled(c, j, e) then j
    else
      match e
      case Loop(e) => j.(world := S.Step(c.handler, c.engine, j.world, e))
      case Statement(s) => j.(owners := O.Step(c.staleAfter, j.owners, s))
      case BeginRegistration(id, f) =>
        j.(owners := O.Step(c.staleAfter, j.owners, Registration(id, f)), pending := j.pending[id := f])
      case Answer(s) =>
        j.(owners := O.Step(c.staleAfter, j.owners, s),
           world := Received(c, j, s.id, Answered(j.pending[s.id], O.MoveOf(c.staleAfter, j.owners, s).phase)))
      case Begin(id, f) => j.(owners := O.Step(c.staleAfter, j.owners, O.Heartbeat(id)), pending := j.pending[id := f])
      case Mark(id) =>
        j.(owners := O.Step(c.staleAfter, j.owners, Marking(id)), world := Received(c, j, id, j.pending[id]))
  }

  ghost function RunFrom(c: Config, j: Joint, events: seq<Event>): Joint
    requires c.Valid()
    decreases |events|
  {
    if events == [] then j else Step(c, RunFrom(c, j, events[..|events| - 1]), events[|events| - 1])
  }

  // ---- The joint invariant -----------------------------------------------

  /** A loop that is waiting for its statements has the frame at hand. */
  ghost predicate PendingInv(j: Joint) {
    forall id :: InFlight(O.PhaseOf(j.owners, id)) || InRegistration(O.PhaseOf(j.owners, id)) ==> id in j.pending
  }

  ghost predicate ConnectedInv(j: Joint) {
    forall id :: O.PhaseOf(j.owners, id) != O.Idle || id in j.owners.born ==> id in j.world.conns
  }

  /** The loop's flag says whether the connection has learned of a row of its own. */
  ghost predicate FlagInv(j: Joint) {
    forall id :: id in j.world.conns ==>
      (j.world.conns[id].local.persisted <==> O.StandingOf(O.PhaseOf(j.owners, id)) != O.Unowned)
  }

  ghost predicate Inv(c: Config, j: Joint) {
    S.WorldInv(c.handler, j.world) && O.Inv(c.staleAfter, j.owners) && PendingInv(j) && ConnectedInv(j) && FlagInv(j)
  }

  lemma OwnersStep(staleAfter: int, s: O.State, e: O.Event)
    requires O.Inv(staleAfter, s)
    ensures O.Inv(staleAfter, O.Step(staleAfter, s, e))
    ensures O.Legal(staleAfter, s, e.id, O.MoveOf(staleAfter, s, e))
  {
    O.MovesAreLegal(staleAfter, s, e);
    O.LegalKeepsInv(staleAfter, s, e.id, O.MoveOf(staleAfter, s, e));
  }

  lemma OwnersFrame(staleAfter: int, s: O.State, e: O.Event, id: string)
    ensures var t := O.Step(staleAfter, s, e);
            && O.PhaseOf(t, id) == (if id == e.id then O.MoveOf(staleAfter, s, e).phase else O.PhaseOf(s, id))
            && (id != e.id ==> (id in t.born <==> id in s.born))
  {
    O.ApplyMovesPhase(s, e.id, O.MoveOf(staleAfter, s, e), id);
    O.ApplyMovesLife(s, e.id, O.MoveOf(staleAfter, s, e), id);
  }

  /** Only a frame starts statements. */
  lemma WorkContinues(staleAfter: int, s: O.State, e: O.Event)
    requires !e.Heartbeat? && !e.Register?
    ensures InFlight(O.MoveOf(staleAfter, s, e).phase) ==> InFlight(O.PhaseOf(s, e.id))
    ensures InRegistration(O.MoveOf(staleAfter, s, e).phase) ==> InRegistration(O.PhaseOf(s, e.id))
  {
  }

  /** A connection learns of a row only where its registration ends well. */
  lemma StandingKept(c: Config, s: O.State, e: O.Event)
    requires O.Inv(c.staleAfter, s)
    ensures var was, next := O.StandingOf(O.PhaseOf(s, e.id)), O.StandingOf(O.MoveOf(c.staleAfter, s, e).phase);
            && (!EndsRegistration(c, s, e) ==> (next != O.Unowned <==> was != O.Unowned))
            && (EndsRegistration(c, s, e) ==>
                  was == O.Unowned && (next != O.Unowned <==> O.MoveOf(c.staleAfter, s, e).phase.Owner?))
  {
    O.StandingsAreLegal(c.staleAfter, s, e);
  }

  /** What a statement of one connection is to the others. */
  ghost predicate OnlyTouches(s: O.State, t: O.State, mover: string, next: O.Phase) {
    && O.PhaseOf(t, mover) == next
    && (forall id :: id != mover ==> O.PhaseOf(t, id) == O.PhaseOf(s, id) && (id in t.born <==> id in s.born))
  }

  lemma StatementTouches(staleAfter: int, s: O.State, e: O.Event)
    ensures OnlyTouches(s, O.Step(staleAfter, s, e), e.id, O.MoveOf(staleAfter, s, e).phase)
  {
    OwnersFrame(staleAfter, s, e, e.id);
    forall id | id != e.id
      ensures O.PhaseOf(O.Step(staleAfter, s, e), id) == O.PhaseOf(s, id)
      ensures id in O.Step(staleAfter, s, e).born <==> id in s.born
    {
      OwnersFrame(staleAfter, s, e, id);
    }
  }

  /** The world and the pending frames may move on with a statement of one connection. */
  ghost predicate MovesOn(j: Joint, k: Joint, id: string, next: O.Phase) {
    && (forall i :: i in j.pending ==> i in k.pending)
    && (forall i :: i in j.world.conns <==> i in k.world.conns)
    && (forall i :: i in j.world.conns && i != id ==>
          k.world.conns[i].local.persisted == j.world.conns[i].local.persisted)
    && id in k.world.conns
    && (k.world.conns[id].local.persisted <==> O.StandingOf(next) != O.Unowned)
  }

  lemma PartsKeep(j: Joint, k: Joint, id: string, next: O.Phase)
    requires PendingInv(j) && ConnectedInv(j) && FlagInv(j)
    requires OnlyTouches(j.owners, k.owners, id, next) && MovesOn(j, k, id, next)
    requires InFlight(next) || InRegistration(next) ==> id in k.pending
    ensures PendingInv(k) && ConnectedInv(k) && FlagInv(k)
  {
  }

  /** One statement, with the frames at hand and the flag as it then must be. */
  lemma StatementKeeps(c: Config, j: Joint, k: Joint, s: O.Event)
    requires c.Valid() && Inv(c, j)
    requires S.WorldInv(c.handler, k.world) && k.owners == O.Step(c.staleAfter, j.owners, s)
    requires s.Heartbeat? || s.Register? ==> s.id in k.pending
    requires MovesOn(j, k, s.id, O.MoveOf(c.staleAfter, j.owners, s).phase)
    ensures Inv(c, k)
  {
    var next := O.MoveOf(c.staleAfter, j.owners, s).phase;
    OwnersStep(c.staleAfter, j.owners, s);
    StatementTouches(c.staleAfter, j.owners, s);
    if !s.Heartbeat? && !s.Register? {
      WorkContinues(c.staleAfter, j.owners, s);
    }
    PartsKeep(j, k, s.id, next);
  }

  /** A frame sets the flag exactly when it creates a row. */
  lemma FramePersists(c: P.Config, l: P.Local, f: P.Frame)
    requires c.Valid()
    ensures P.OnFrame(c, l, f).local.persisted <==> l.persisted || (AsksCreate(c, l, f) && f.outside.create.Created?)
  {
    S.ScreenKeeps(c, l, f);
    var (screened, stage) := P.Screen(c, l, f);
    if stage == P.Reached {
      ActPersists(c, screened, f, f.body.value);
    }
  }

  lemma ActPersists(c: P.Config, l: P.Local, f: P.Frame, m: P.Envelope)
    requires c.Valid()
    ensures P.Act(c, l, f, m).local.persisted <==>
            l.persisted
            || (c.persistence && m.action == "trader.register" && m.kind == "request" && l.session.traderId == ""
                && m.register.Some? && Trim(f.outside.certificateCn) != "" && f.outside.identity.Some?
                && f.outside.create.Created?)
  {
  }

  lemma AnsweredAsks(c: P.Config, l: P.Local, f: P.Frame, p: O.Phase)
    requires AsksCreate(c, l, f)
    ensures AsksCreate(c, l, Answered(f, p)) && (Answered(f, p).outside.create.Created? <==> p.Owner?)
  {
  }

  /** What a frame does to the flags. */
  lemma ReceivePersists(c: Config, w: S.World, id: string, f: P.Frame)
    requires c.Valid() && S.Enabled(w, S.Receive(id, f))
    ensures var v := S.Step(c.handler, c.engine, w, S.Receive(id, f));
            && (forall k :: k in v.conns <==> k in w.conns)
            && (forall k :: k in w.conns && k != id ==> v.conns[k] == w.conns[k])
            && (v.conns[id].local.persisted <==>
                w.conns[id].local.persisted
                  || (AsksCreate(c.handler, w.conns[id].local, f) && f.outside.create.Created?))
  {
    FramePersists(c.handler, w.conns[id].local, f);
  }

  lemma BeatAsksNothing(c: P.Config, w: S.World, id: string, f: P.Frame)
    requires c.Valid() && AcceptsBeat(c, w, id, f)
    ensures !AsksCreate(c, w.conns[id].local, f)
  {
  }

  /** A loop event that creates no row leaves every flag as it is, a new connection's unset. */
  lemma LoopFlags(c: Config, j: Joint, e: S.Event, id: string)
    requires c.Valid() && Enabled(c, j, Loop(e))
    ensures var w, v := j.world, S.Step(c.handler, c.engine, j.world, e);
            && (id in w.conns ==> id in v.conns)
            && (id in v.conns ==> (v.conns[id].local.persisted <==> id in w.conns && w.conns[id].local.persisted))
  {
    if e.Receive? && S.Enabled(j.world, e) {
      ReceivePersists(c, j.world, e.id, e.frame);
    }
  }

  lemma FlagsKeep(j: Joint, k: Joint)
    requires PendingInv(j) && ConnectedInv(j) && FlagInv(j) && k.owners == j.owners && k.pending == j.pending
    requires forall id :: id in j.world.conns ==> id in k.world.conns
    requires forall id :: id in k.world.conns ==>
               (k.world.conns[id].local.persisted <==> id in j.world.conns && j.world.conns[id].local.persisted)
    ensures PendingInv(k) && ConnectedInv(k) && FlagInv(k)
  {
  }

  lemma LoopKeeps(c: Config, j: Joint, e: S.Event)
    requires c.Valid() && Inv(c, j) && Enabled(c, j, Loop(e))
    ensures Inv(c, Step(c, j, Loop(e)))
  {
    var k := Step(c, j, Loop(e));
    S.StepKeeps(c.handler, c.engine, j.world, e);
    forall id
      ensures id in j.world.conns ==> id in k.world.conns
      ensures id in k.world.conns ==>
                (k.world.conns[id].local.persisted <==> id in j.world.conns && j.world.conns[id].local.persisted)
    {
      LoopFlags(c, j, e, id);
    }
    FlagsKeep(j, k);
  }

  lemma AnswerKeeps(c: Config, j: Joint, s: O.Event)
    requires c.Valid() && Inv(c, j) && Enabled(c, j, Answer(s))
    ensures Inv(c, Step(c, j, Answer(s)))
  {
    var p := O.MoveOf(c.staleAfter, j.owners, s).phase;
    var f := Answered(j.pending[s.id], p);
    S.StepKeeps(c.handler, c.engine, j.world, S.Receive(s.id, f));
    AnsweredAsks(c.handler, j.world.conns[s.id].local, j.pending[s.id], p);
    StandingKept(c, j.owners, s);
    ReceiveMovesOn(c, j, Step(c, j, Answer(s)), s.id, f, p);
    StatementKeeps(c, j, Step(c, j, Answer(s)), s);
  }

  lemma ReceiveMovesOn(c: Config, j: Joint, k: Joint, id: string, f: P.Frame, next: O.Phase)
    requires c.Valid() && S.Enabled(j.world, S.Receive(id, f))
    requires k.world == Received(c, j, id, f) && k.pending == j.pending
    requires (j.world.conns[id].local.persisted
              || (AsksCreate(c.handler, j.world.conns[id].local, f) && f.outside.create.Created?))
             <==> O.StandingOf(next) != O.Unowned
    ensures MovesOn(j, k, id, next)
  {
    ReceivePersists(c, j.world, id, f);
  }

  lemma MarkKeeps(c: Config, j: Joint, id: string)
    requires c.Valid() && Inv(c, j) && Enabled(c, j, Mark(id))
    ensures Inv(c, Step(c, j, Mark(id)))
  {
    S.StepKeeps(c.handler, c.engine, j.world, S.Receive(id, j.pending[id]));
    MarkMovesOn(c, j, id);
    StatementKeeps(c, j, Step(c, j, Mark(id)), Marking(id));
  }

  lemma MarkMovesOn(c: Config, j: Joint, id: string)
    requires c.Valid() && Inv(c, j) && Enabled(c, j, Mark(id))
    ensures MovesOn(j, Step(c, j, Mark(id)), id, O.MoveOf(c.staleAfter, j.owners, Marking(id)).phase)
  {
    BeatAsksNothing(c.handler, j.world, id, j.pending[id]);
    MarkStanding(c, j, id);
    ReceiveMovesOn(c, j, Step(c, j, Mark(id)), id, j.pending[id], O.MoveOf(c.staleAfter, j.owners, Marking(id)).phase);
  }

  lemma MarkStanding(c: Config, j: Joint, id: string)
    requires O.Inv(c.staleAfter, j.owners) && FlagInv(j) && id in j.world.conns && O.PhaseOf(j.owners, id).Marking?
    ensures j.world.conns[id].local.persisted
            <==> O.StandingOf(O.MoveOf(c.staleAfter, j.owners, Marking(id)).phase) != O.Unowned
  {
    StandingKept(c, j.owners, Marking(id));
  }

  lemma StepKeeps(c: Config, j: Joint, e: Event)
    requires c.Valid() && Inv(c, j)
    ensures Inv(c, Step(c, j, e))
  {
    if Enabled(c, j, e) {
      match e
      case Loop(e) => LoopKeeps(c, j, e);
      case Statement(s) =>
        StandingKept(c, j.owners, s);
        StatementKeeps(c, j, Step(c, j, Statement(s)), s);
      case BeginRegistration(id, f) =>
        StandingKept(c, j.owners, Registration(id, f));
        StatementKeeps(c, j, Step(c, j, e), Registration(id, f));
      case Answer(s) => AnswerKeeps(c, j, s);
      case Begin(id, f) =>
        StandingKept(c, j.owners, O.Heartbeat(id));
        StatementKeeps(c, j, Step(c, j, e), O.Heartbeat(id));
      case Mark(id) => MarkKeeps(c, j, id);
    }
  }

  lemma {:induction false} RunKeepsFrom(c: Config, j: Joint, events: seq<Event>)
    requires c.Valid() && Inv(c, j)
    ensures Inv(c, RunFrom(c, j, events))
    decreases |events|
  {
    if events != [] {
      RunKeepsFrom(c, j, events[..|events| - 1]);
      StepKeeps(c, RunFrom(c, j, events[..|events| - 1]), events[|events| - 1]);
    }
  }

  lemma RunKeeps(c: Config, events: seq<Event>)
    requires c.Valid()
    ensures Inv(c, RunFrom(c, INITIAL, events))
  {
    O.InitialInv(c.staleAfter);
    RunKeepsFrom(c, INITIAL, events);
  }

  /**
   With persistence a connection is registered exactly when it has inserted a row
   and learned of it: what the loop's flag and its snapshot say is what the table
   holds, or held until the row was ended.
   */
  lemma RegisteredOwnsRowExactly(c: Config, events: seq<Event>, id: string)
    requires c.Valid() && c.handler.persistence
    requires id in RunFrom(c, INITIAL, events).world.conns
    ensures var j := RunFrom(c, INITIAL, events);
            && (j.world.conns[id].local.persisted <==> j.world.conns[id].local.session.traderId != "")
            && (j.world.conns[id].local.persisted <==> id in j.owners.born && id !in j.owners.lost)
  {
    RunKeeps(c, events);
    var j := RunFrom(c, INITIAL, events);
    assert S.ConnInv(c.handler, id, j.world.conns[id]);
    assert O.StandingInv(j.owners, id);
  }

  // ---- The last heartbeat in memory ----------------------------------------

  /** A frame dates a session only as an accepted heartbeat, and then with its own time stamp. */
  lemma FrameBeat(c: P.Config, l: P.Local, f: P.Frame)
    requires c.Valid()
    ensures var o := P.OnFrame(c, l, f);
            if o.stage == P.Reached && f.body.Some? && f.body.value.action == "trader.heartbeat" && o.effect.Publish?
            then o.local.session.lastHeartbeatMs == f.outside.stampMs
            else o.local.session.lastHeartbeatMs == l.session.lastHeartbeatMs
  {
    S.ScreenKeeps(c, l, f);
    var (screened, stage) := P.Screen(c, l, f);
    if stage == P.Reached {
      ActBeat(c, screened, f, f.body.value);
    }
  }

  lemma ActBeat(c: P.Config, l: P.Local, f: P.Frame, m: P.Envelope)
    requires c.Valid()
    ensures var o := P.Act(c, l, f, m);
            && o.stage == P.Reached
            && o.local.session.lastHeartbeatMs ==
               if m.action == "trader.heartbeat" && o.effect.Publish? then f.outside.stampMs
               else l.session.lastHeartbeatMs
  {
  }

  function LastBeat(w: S.World, id: string): nat {
    if id in w.conns then w.conns[id].local.session.lastHeartbeatMs else 0
  }

  lemma LoopBeat(c: Config, w: S.World, e: S.Event, id: string)
    requires c.Valid() && id in w.conns
    ensures id in S.Step(c.handler, c.engine, w, e).conns
    ensures LastBeat(S.Step(c.handler, c.engine, w, e), id) ==
            if e.Receive? && e.id == id && AcceptsBeat(c.handler, w, id, e.frame) then e.frame.outside.stampMs
            else LastBeat(w, id)
  {
    if e.Receive? && e.id == id && S.Enabled(w, e) {
      FrameBeat(c.handler, w.conns[id].local, e.frame);
    }
  }

  // ---- After the row has ended ---------------------------------------------

  /** Since a moment when the session's row had ended: at most the heartbeat then pending has been marked. */
  ghost predicate Since(j: Joint, k: Joint, id: string) {
    && O.Frozen(j.owners, k.owners, id)
    && id in k.world.conns
    && (O.PhaseOf(k.owners, id).Marking? ==>
          id in j.pending && id in k.pending && k.pending[id] == j.pending[id]
            && LastBeat(k.world, id) == LastBeat(j.world, id))
    && (LastBeat(k.world, id) == LastBeat(j.world, id)
        || (O.PhaseOf(j.owners, id).Marking? && id in j.pending
            && LastBeat(k.world, id) == j.pending[id].outside.stampMs))
  }

  /** A session whose row has ended gets no further heartbeat as far as the mark. */
  lemma NoNewMarking(staleAfter: int, s: O.State, t: O.State, e: O.Event, id: string)
    requires O.Inv(staleAfter, t) && O.Frozen(s, t, id) && id in t.died
    ensures O.Frozen(s, O.Step(staleAfter, t, e), id)
    ensures O.PhaseOf(O.Step(staleAfter, t, e), id).Marking? ==>
              O.PhaseOf(t, id).Marking? && (e.Advance? ==> e.id != id)
  {
    var m := O.MoveOf(staleAfter, t, e);
    O.MovesAreLegal(staleAfter, t, e);
    O.FrozenStep(staleAfter, s, t, id, e.id, m);
    O.ApplyMovesPhase(t, e.id, m, id);
  }

  /** A statement of any connection, no frame dating the session. */
  lemma SinceStatement(c: Config, j: Joint, k: Joint, l: Joint, s: O.Event, id: string)
    requires Inv(c, k) && Since(j, k, id) && l.owners == O.Step(c.staleAfter, k.owners, s)
    requires id in l.world.conns && LastBeat(l.world, id) == LastBeat(k.world, id)
    requires !O.PhaseOf(k.owners, id).Marking?
             || (id in k.pending ==> id in l.pending && l.pending[id] == k.pending[id])
    ensures Since(j, l, id)
  {
    NoNewMarking(c.staleAfter, j.owners, k.owners, s, id);
  }

  /** A registration's answer leaves every date. */
  lemma SinceAnswer(c: Config, j: Joint, k: Joint, e: Event, id: string)
    requires c.Valid() && Inv(c, k) && Since(j, k, id) && Enabled(c, k, e) && e.Answer?
    ensures Since(j, Step(c, k, e), id)
  {
    var s := e.s;
    var p := O.MoveOf(c.staleAfter, k.owners, s).phase;
    AnsweredAsks(c.handler, k.world.conns[s.id].local, k.pending[s.id], p);
    LoopBeat(c, k.world, S.Receive(s.id, Answered(k.pending[s.id], p)), id);
    SinceStatement(c, j, k, Step(c, k, e), s, id);
  }

  lemma SinceMark(c: Config, j: Joint, k: Joint, e: Event, id: string)
    requires c.Valid() && Inv(c, k) && Since(j, k, id) && Enabled(c, k, e) && e.Mark?
    ensures Since(j, Step(c, k, e), id)
  {
    LoopBeat(c, k.world, S.Receive(e.id, k.pending[e.id]), id);
    NoNewMarking(c.staleAfter, j.owners, k.owners, Marking(e.id), id);
    if e.id != id {
      SinceStatement(c, j, k, Step(c, k, e), Marking(e.id), id);
    }
  }

  lemma SinceLoop(c: Config, j: Joint, k: Joint, e: Event, id: string)
    requires c.Valid() && Since(j, k, id) && Enabled(c, k, e) && e.Loop?
    ensures Since(j, Step(c, k, e), id)
  {
    LoopBeat(c, k.world, e.e, id);
  }

  lemma SinceStatementEvent(c: Config, j: Joint, k: Joint, e: Event, id: string)
    requires c.Valid() && Inv(c, k) && Since(j, k, id) && Enabled(c, k, e) && e.Statement?
    ensures Since(j, Step(c, k, e), id)
  {
    SinceStatement(c, j, k, Step(c, k, e), e.s, id);
  }

  /** Whose statements begin was at rest, so no mark of its was pending. */
  lemma SinceStart(c: Config, j: Joint, k: Joint, s: O.Event, f: P.Frame, id: string)
    requires Inv(c, k) && Since(j, k, id) && !O.PhaseOf(k.owners, s.id).Marking?
    ensures Since(j, k.(owners := O.Step(c.staleAfter, k.owners, s), pending := k.pending[s.id := f]), id)
  {
    var l := k.(owners := O.Step(c.staleAfter, k.owners, s), pending := k.pending[s.id := f]);
    assert s.id != id && id in k.pending ==> id in l.pending && l.pending[id] == k.pending[id];
    SinceStatement(c, j, k, l, s, id);
  }

  lemma SinceBegin(c: Config, j: Joint, k: Joint, e: Event, id: string)
    requires c.Valid() && Inv(c, k) && Since(j, k, id) && Enabled(c, k, e) && e.Begin?
    ensures Since(j, Step(c, k, e), id)
  {
    SinceStart(c, j, k, O.Heartbeat(e.id), e.frame, id);
  }

  lemma SinceBeginRegistration(c: Config, j: Joint, k: Joint, e: Event, id: string)
    requires c.Valid() && Inv(c, k) && Since(j, k, id) && Enabled(c, k, e) && e.BeginRegistration?
    ensures Since(j, Step(c, k, e), id)
  {
    SinceStart(c, j, k, Registration(e.id, e.frame), e.frame, id);
  }

  lemma SinceStep(c: Config, j: Joint, k: Joint, e: Event, id: string)
    requires c.Valid() && Inv(c, k) && Since(j, k, id) && Enabled(c, k, e)
    ensures Since(j, Step(c, k, e), id)
  {
    if e.Loop? {
      SinceLoop(c, j, k, e, id);
    } else if e.Answer? {
      SinceAnswer(c, j, k, e, id);
    } else if e.Mark? {
      SinceMark(c, j, k, e, id);
    } else if e.Statement? {
      SinceStatementEvent(c, j, k, e, id);
    } else if e.Begin? {
      SinceBegin(c, j, k, e, id);
    } else {
      SinceBeginRegistration(c, j, k, e, id);
    }
  }

  lemma SinceEvent(c: Config, j: Joint, k: Joint, e: Event, id: string)
    requires c.Valid() && Inv(c, k) && Since(j, k, id)
    ensures Since(j, Step(c, k, e), id)
  {
    if Enabled(c, k, e) {
      SinceStep(c, j, k, e, id);
    }
  }

  lemma {:induction false} RunSince(c: Config, j: Joint, events: seq<Event>, id: string)
    requires c.Valid() && Inv(c, j) && id in j.owners.died
    ensures Since(j, RunFrom(c, j, events), id)
    decreases |events|
  {
    if events == [] {
      SinceItself(c, j, id);
    } else {
      var before, e := events[..|events| - 1], events[|events| - 1];
      RunSince(c, j, before, id);
      RunKeepsFrom(c, j, before);
      SinceEvent(c, j, RunFrom(c, j, before), e, id);
    }
  }

  lemma SinceItself(c: Config, j: Joint, id: string)
    requires c.Valid() && Inv(c, j) && id in j.owners.died
    ensures Since(j, j, id)
  {
  }

  /** The newest heartbeat of a session that the database has accepted, marked in memory or about to be. */
  ghost function LastAccepted(j: Joint, id: string): nat {
    var marked := LastBeat(j.world, id);
    if O.PhaseOf(j.owners, id).Marking? && id in j.pending && j.pending[id].outside.stampMs > marked
    then j.pending[id].outside.stampMs else marked
  }

  /**
   Once a session's row has ended - finalised or displaced - the scheduler never
   chooses the session later than its last accepted heartbeat plus the healthy
   window, whatever its connection, its rivals and the database do meanwhile.
   */
  lemma DisplacedSessionsAgeOut(c: Config, before: seq<Event>, id: string, after: seq<Event>, input: Engine.CycleInput)
    requires c.Valid()
    requires id in RunFrom(c, INITIAL, before).owners.died
    ensures var j := RunFrom(c, INITIAL, before);
            S.Chooses(c.engine, RunFrom(c, j, after).world, input, id) ==>
              input.now / P.SECOND <= LastAccepted(j, id) / 1000 + Selection.WindowSeconds(c.engine.healthyWindow)
  {
    var j := RunFrom(c, INITIAL, before);
    RunKeeps(c, before);
    RunSince(c, j, after, id);
    RunKeepsFrom(c, j, after);
    SinceAgesOut(c, j, RunFrom(c, j, after), id, input);
  }

  lemma SinceAgesOut(c: Config, j: Joint, k: Joint, id: string, input: Engine.CycleInput)
    requires c.Valid() && Inv(c, k) && Since(j, k, id)
    ensures S.Chooses(c.engine, k.world, input, id) ==>
              input.now / P.SECOND <= LastAccepted(j, id) / 1000 + Selection.WindowSeconds(c.engine.healthyWindow)
  {
    if S.Chooses(c.engine, k.world, input, id) {
      S.ChosenIsFit(c.handler, c.engine, k.world, input);
      assert LastBeat(k.world, id) <= LastAccepted(j, id);
      Thousandths(LastBeat(k.world, id), LastAccepted(j, id));
    }
  }

  lemma Thousandths(x: nat, y: nat)
    requires x <= y
    ensures x / 1000 <= y / 1000
  {
  }
}
