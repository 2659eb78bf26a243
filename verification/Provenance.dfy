/**
 Where a session's contents come from, over whole runs of System.dfy: one accepted
 register frame and the latest accepted heartbeat. So what the scheduler's choice
 rests on is what the identity database and the peer have said.
 */
module Provenance {
  import opened Sequences
  import opened Sessions
  import opened Protocol
  import opened System
  import opened FrameEffects
  import Engine
  import Selection

  /** The event is a frame of the connection that gets to the action switch. */
  ghost predicate Arrives(c: Config, w: World, e: Event, id: string)
    requires c.Valid()
  {
    e.Receive? && e.id == id && Enabled(w, e) && OnFrame(c, w.conns[id].local, e.frame).stage == Reached
  }

  ghost predicate Registers(c: Config, w: World, e: Event, id: string)
    requires c.Valid()
  {
    Arrives(c, w, e, id) && RegisterAccepted(c, w.conns[id].local.session, e.frame)
  }

  ghost predicate Beats(c: Config, w: World, e: Event, id: string)
    requires c.Valid()
  {
    Arrives(c, w, e, id) && HeartbeatAccepted(c, w.conns[id].local, e.frame)
  }

  /** The i-th event of a run is the connection's register frame, or an accepted heartbeat of it. */
  ghost predicate RegistersAt(c: Config, ec: Engine.Config, events: seq<Event>, i: nat, id: string)
    requires c.Valid() && ec.Valid()
  {
    i < |events| && Registers(c, Run(c, ec, events[..i]), events[i], id)
  }

  ghost predicate BeatsAt(c: Config, ec: Engine.Config, events: seq<Event>, i: nat, id: string)
    requires c.Valid() && ec.Valid()
  {
    i < |events| && Beats(c, Run(c, ec, events[..i]), events[i], id)
  }

  // ---- One step ----------------------------------------------------------------

  lemma FrameRegisters(c: Config, w: World, id: string, f: Frame)
    requires c.Valid() && WorldInv(c, w) && Enabled(w, Receive(id, f))
    ensures var s, t := w.conns[id].local.session, OnFrame(c, w.conns[id].local, f).local.session;
            && (t.traderId != s.traderId <==> Registers(c, w, Receive(id, f), id))
            && (Registers(c, w, Receive(id, f), id) ==> s.traderId == "" && Carries(c, t, f))
            && (s.traderId != "" ==> SameRegistration(s, t))
            && (if Beats(c, w, Receive(id, f), id) then t.lastHeartbeatMs == f.outside.stampMs
                else t.lastHeartbeatMs == s.lastHeartbeatMs)
  {
    var l := w.conns[id].local;
    assert ConnInv(c, id, w.conns[id]);
    FrameKeepsRegistration(c, l, f);
    OnlyHeartbeatsDate(c, l, f);
    if OnFrame(c, l, f).stage == Reached {
      RegistersExactly(c, l, f);
      if HeartbeatAccepted(c, l, f) {
        BeatsExactly(c, l, f);
      }
    } else {
      ScreenKeeps(c, l, f);
    }
  }

  /** What any event does to a connection's registration and last heartbeat. */
  lemma StepRegisters(c: Config, ec: Engine.Config, w: World, e: Event, id: string)
    requires c.Valid() && ec.Valid() && WorldInv(c, w) && id in w.conns
    ensures var v := Step(c, ec, w, e);
            && id in v.conns
            && var s, t := w.conns[id].local.session, v.conns[id].local.session;
               && (t.traderId != s.traderId <==> Registers(c, w, e, id))
               && (Registers(c, w, e, id) ==> s.traderId == "" && Carries(c, t, e.frame))
               && (s.traderId != "" ==> SameRegistration(s, t))
               && (if Beats(c, w, e, id) then t.lastHeartbeatMs == e.frame.outside.stampMs
                   else t.lastHeartbeatMs == s.lastHeartbeatMs)
  {
    if e.Receive? && e.id == id && Enabled(w, e) {
      FrameRegisters(c, w, id, e.frame);
    }
  }

  lemma StepConnects(c: Config, ec: Engine.Config, w: World, e: Event, id: string)
    requires c.Valid() && ec.Valid() && id !in w.conns
    ensures !Registers(c, w, e, id) && !Beats(c, w, e, id)
    ensures var v := Step(c, ec, w, e);
            id in v.conns ==>
              v.conns[id].local.session.traderId == "" && v.conns[id].local.session.lastHeartbeatMs == 0
  {
  }

  lemma CarriesOn(c: Config, s: Session, t: Session, f: Frame)
    requires Carries(c, s, f) && SameRegistration(s, t)
    ensures Carries(c, t, f)
  {
  }

  // ---- Whole runs ----------------------------------------------------------------

  function SessionOf(w: World, id: string): Option<Session> {
    if id in w.conns then Some(w.conns[id].local.session) else None
  }

  /** What an event does to a connection's session: it appears, or is registered or dated by a frame. */
  ghost predicate Followed(c: Config, s: Option<Session>, t: Option<Session>, f: Option<Frame>, g: Option<Frame>) {
    && (s.None? ==> f.None? && g.None? && (t.Some? ==> t.value.traderId == "" && t.value.lastHeartbeatMs == 0))
    && (s.Some? ==>
          && t.Some?
          && (t.value.traderId != s.value.traderId <==> f.Some?)
          && (f.Some? ==> s.value.traderId == "" && Carries(c, t.value, f.value))
          && (s.value.traderId != "" ==> SameRegistration(s.value, t.value))
          && t.value.lastHeartbeatMs == if g.Some? then g.value.outside.stampMs else s.value.lastHeartbeatMs)
  }

  lemma EventFollowed(c: Config, ec: Engine.Config, events: seq<Event>, id: string)
    requires c.Valid() && ec.Valid() && events != []
    ensures var n := |events| - 1;
            Followed(c, SessionOf(Run(c, ec, events[..n]), id), SessionOf(Run(c, ec, events), id),
                     if RegistersAt(c, ec, events, n, id) then Some(events[n].frame) else None,
                     if BeatsAt(c, ec, events, n, id) then Some(events[n].frame) else None)
  {
    var n := |events| - 1;
    var w := Run(c, ec, events[..n]);
    SnapshotsAgree(c, ec, events[..n]);
    if id in w.conns {
      StepRegisters(c, ec, w, events[n], id);
    } else {
      StepConnects(c, ec, w, events[n], id);
    }
  }

  lemma EarlierAt(c: Config, ec: Engine.Config, events: seq<Event>, i: nat, id: string)
    requires c.Valid() && ec.Valid() && i + 1 < |events|
    ensures RegistersAt(c, ec, events, i, id) <==> RegistersAt(c, ec, events[..|events| - 1], i, id)
    ensures BeatsAt(c, ec, events, i, id) <==> BeatsAt(c, ec, events[..|events| - 1], i, id)
  {
    assert events[..|events| - 1][..i] == events[..i];
  }

  // ---- Registration --------------------------------------------------------------

  /** The events that registered the connection: none, or one whose frame the session carries. */
  ghost predicate ByOneFrame(c: Config, s: Option<Session>, events: seq<Event>, at: iset<nat>) {
    && (forall i :: i in at ==> i < |events| && events[i].Receive?)
    && (s.Some? && s.value.traderId != "" ==> exists i :: i in at)
    && (forall i :: i in at ==> s.Some? && s.value.traderId != "" && Carries(c, s.value, events[i].frame))
    && (forall i, j :: i in at && j in at ==> i == j)
  }

  ghost function RegisterEvents(c: Config, ec: Engine.Config, events: seq<Event>, id: string): iset<nat>
    requires c.Valid() && ec.Valid()
  {
    iset i: nat | RegistersAt(c, ec, events, i, id)
  }

  lemma OneFrameStep(c: Config, s: Option<Session>, t: Option<Session>, events: seq<Event>, before: iset<nat>,
                     e: Event, here: bool, g: Option<Frame>)
    requires ByOneFrame(c, s, events, before) && (here ==> e.Receive?)
    requires Followed(c, s, t, if here then Some(e.frame) else None, g)
    ensures ByOneFrame(c, t, events + [e], if here then before + iset{|events|} else before)
  {
    forall i | i in before ensures t.Some? && t.value.traderId != "" && Carries(c, t.value, (events + [e])[i].frame) {
      CarriesOn(c, s.value, t.value, events[i].frame);
    }
    assert (events + [e])[|events|] == e;
  }

  /**
   Under any interleaving: a connection is registered exactly if one of its frames
   registered it, no two frames did, and its session carries that frame's role and
   exchanges and its identity record's id, database id and status.
   */
  lemma {:induction false} RegisteredByOneFrame(c: Config, ec: Engine.Config, events: seq<Event>, id: string)
    requires c.Valid() && ec.Valid()
    ensures ByOneFrame(c, SessionOf(Run(c, ec, events), id), events, RegisterEvents(c, ec, events, id))
  {
    if events != [] {
      var n := |events| - 1;
      var before, e := events[..n], events[n];
      RegisteredByOneFrame(c, ec, before, id);
      EventFollowed(c, ec, events, id);
      var here := RegistersAt(c, ec, events, n, id);
      RegisterEventsStep(c, ec, events, id);
      assert events == before + [e];
      OneFrameStep(c, SessionOf(Run(c, ec, before), id), SessionOf(Run(c, ec, events), id), before,
                   RegisterEvents(c, ec, before, id), e, here,
                   if BeatsAt(c, ec, events, n, id) then Some(e.frame) else None);
    }
  }

  lemma RegisterEventsStep(c: Config, ec: Engine.Config, events: seq<Event>, id: string)
    requires c.Valid() && ec.Valid() && events != []
    ensures var n := |events| - 1;
            RegisterEvents(c, ec, events, id) ==
            RegisterEvents(c, ec, events[..n], id) + if RegistersAt(c, ec, events, n, id) then iset{n} else iset{}
  {
    var n := |events| - 1;
    forall i: nat ensures i in RegisterEvents(c, ec, events, id) <==>
                          i in RegisterEvents(c, ec, events[..n], id) || (i == n && RegistersAt(c, ec, events, n, id))
    {
      if i < n {
        EarlierAt(c, ec, events, i, id);
      }
    }
  }

  // ---- Heartbeats ----------------------------------------------------------------

  /** The i-th event is the connection's latest accepted heartbeat. */
  ghost predicate LatestBeat(c: Config, ec: Engine.Config, events: seq<Event>, i: nat, id: string)
    requires c.Valid() && ec.Valid()
  {
    BeatsAt(c, ec, events, i, id) && forall j: nat :: i < j ==> !BeatsAt(c, ec, events, j, id)
  }

  ghost predicate Dated(c: Config, ec: Engine.Config, s: Option<Session>, events: seq<Event>, id: string)
    requires c.Valid() && ec.Valid()
  {
    && (s.None? || s.value.lastHeartbeatMs == 0 ==> forall i: nat :: !BeatsAt(c, ec, events, i, id))
    && (s.Some? && s.value.lastHeartbeatMs > 0 ==>
          exists i: nat :: LatestBeat(c, ec, events, i, id)
            && events[i].frame.outside.stampMs == s.value.lastHeartbeatMs)
  }

  /** A session is dated by the latest heartbeat that was accepted, and not dated without one. */
  lemma {:induction false} DatedByLatestBeat(c: Config, ec: Engine.Config, events: seq<Event>, id: string)
    requires c.Valid() && ec.Valid()
    ensures Dated(c, ec, SessionOf(Run(c, ec, events), id), events, id)
  {
    if events != [] {
      var n := |events| - 1;
      var before := events[..n];
      DatedByLatestBeat(c, ec, before, id);
      EventFollowed(c, ec, events, id);
      forall i: nat ensures BeatsAt(c, ec, events, i, id) <==>
                            BeatsAt(c, ec, before, i, id) || (i == n && BeatsAt(c, ec, events, n, id))
      {
        if i < n {
          EarlierAt(c, ec, events, i, id);
        }
      }
      DatedStep(c, ec, SessionOf(Run(c, ec, before), id), SessionOf(Run(c, ec, events), id), events, id);
    }
  }

  lemma DatedStep(c: Config, ec: Engine.Config, s: Option<Session>, t: Option<Session>, events: seq<Event>, id: string)
    requires c.Valid() && ec.Valid() && events != [] && Dated(c, ec, s, events[..|events| - 1], id)
    requires var n := |events| - 1;
             && (forall i: nat :: BeatsAt(c, ec, events, i, id) <==>
                   BeatsAt(c, ec, events[..n], i, id) || (i == n && BeatsAt(c, ec, events, n, id)))
             && Followed(c, s, t, if RegistersAt(c, ec, events, n, id) then Some(events[n].frame) else None,
                         if BeatsAt(c, ec, events, n, id) then Some(events[n].frame) else None)
    ensures Dated(c, ec, t, events, id)
  {
    var n := |events| - 1;
    if BeatsAt(c, ec, events, n, id) {
      forall j: nat | n < j ensures !BeatsAt(c, ec, events, j, id) {
      }
      assert LatestBeat(c, ec, events, n, id);
    } else if s.Some? && s.value.lastHeartbeatMs > 0 {
      var i: nat :| LatestBeat(c, ec, events[..n], i, id)
                    && events[..n][i].frame.outside.stampMs == s.value.lastHeartbeatMs;
      assert LatestBeat(c, ec, events, i, id);
    }
  }

  // ---- What is published -----------------------------------------------------------

  /** A published snapshot shows the session as it is, times in whole seconds. */
  lemma SnapshotsShow(c: Config, ec: Engine.Config, events: seq<Event>, id: string)
    requires c.Valid() && ec.Valid() && id in Run(c, ec, events).shared.sessions
    ensures var w := Run(c, ec, events);
            && id in w.conns
            && var s, shown := w.conns[id].local.session, w.shared.sessions[id];
               && shown.sessionId == id && shown.traderId == s.traderId && shown.traderDbId == s.traderDbId
               && shown.traderStatus == s.traderStatus && shown.role == s.role && shown.state == s.state
               && shown.loadIndex == s.loadIndex && shown.tradeLoadIndex == s.tradeLoadIndex
               && shown.latencyProfileMs == s.latencyProfileMs && shown.exchangeLatencies == s.exchangeLatencies
               && shown.capabilities == s.capabilities && shown.effectiveExchanges == s.effective
               && shown.lastHeartbeatUnix * 1000 <= s.lastHeartbeatMs < shown.lastHeartbeatUnix * 1000 + 1000
               && shown.registeredAtUnix * 1000 <= s.registeredAtMs < shown.registeredAtUnix * 1000 + 1000
  {
    SnapshotsAgree(c, ec, events);
    PublishedSession(c, Run(c, ec, events), id);
  }

  // ---- What the scheduler's choice rests on ------------------------------------

  /** The register frame allows the task: an active trader as far as the database says, and a fitting role. */
  ghost predicate Entitles(c: Config, ec: Engine.Config, f: Frame, traderId: string) {
    && f.body.Some? && f.body.value.register.Some? && NamedBy(c, traderId, f)
    && (c.persistence ==>
          && f.outside.identity.Some? && f.outside.create.Created?
          && f.outside.identity.value.status in {"", "active"})
    && (ec.taskType == Selection.TradeTask ==> f.body.value.register.value.role != "monitor")
  }

  /** A recent heartbeat, by the clock of the scheduler and of the handler, taken by the database. */
  ghost predicate Recent(c: Config, ec: Engine.Config, f: Frame, now: nat) {
    && (c.persistence ==> f.outside.heartbeatPersisted)
    && (now / 1_000_000_000 - f.outside.stampMs / 1000) * 1_000_000_000 <= ec.healthyWindow
  }

  /**
   Whoever the scheduler chooses, in any run: exactly one frame registered that
   connection, under the chosen trader id, with an identity that was active or had
   no status and a role that fits; and the latest heartbeat accepted from it is recent.
   */
  lemma ChosenByItsFrames(c: Config, ec: Engine.Config, events: seq<Event>, input: Engine.CycleInput)
    returns (i: nat, j: nat)
    requires c.Valid() && ec.Valid() && Enabled(Run(c, ec, events), Schedule(input))
    requires SelectedIn(Engine.Cycle(ec, Run(c, ec, events).engine, input).1).Some?
    ensures var chosen := SelectedIn(Engine.Cycle(ec, Run(c, ec, events).engine, input).1).value;
            && RegistersAt(c, ec, events, i, chosen.sessionId)
            && (forall k: nat :: RegistersAt(c, ec, events, k, chosen.sessionId) ==> k == i)
            && Entitles(c, ec, events[i].frame, chosen.traderId)
            && LatestBeat(c, ec, events, j, chosen.sessionId)
            && Recent(c, ec, events[j].frame, input.now)
  {
    var w := Run(c, ec, events);
    var chosen := SelectedIn(Engine.Cycle(ec, w.engine, input).1).value;
    OnlyFitSessionsAreChosen(c, ec, events, input);
    RegisteredByOneFrame(c, ec, events, chosen.sessionId);
    DatedByLatestBeat(c, ec, events, chosen.sessionId);
    i :| i in RegisterEvents(c, ec, events, chosen.sessionId);
    forall k: nat | RegistersAt(c, ec, events, k, chosen.sessionId) ensures k == i {
      assert k in RegisterEvents(c, ec, events, chosen.sessionId);
    }
    j :| LatestBeat(c, ec, events, j, chosen.sessionId)
         && events[j].frame.outside.stampMs == w.conns[chosen.sessionId].local.session.lastHeartbeatMs;
  }
}
