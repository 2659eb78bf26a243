/**
 The handler's shared state and the body of the Serve loop
 (internal/api/ws/handler.go), proved against Protocol.dfy. Each method of
 Handler is one critical section.
 */
module HandlerLoop {
  import opened Sequences
  import opened ConnectionEntries
  import opened Sessions
  import opened TraderNames
  import opened Protocol
  import Selection
  import FixedWindow
  import RequestDedup
  import Latency
  import ConnectionRuns

  ghost predicate ListedAs(ids: seq<string>, snapshots: seq<Selection.Snapshot>,
                           sessions: map<string, Selection.Snapshot>) {
    && NoDuplicates(ids) && |ids| == |snapshots|
    && (forall id :: id in ids <==> id in sessions)
    && (forall i :: 0 <= i < |ids| ==> ids[i] in sessions && snapshots[i] == sessions[ids[i]])
  }

  /** The snapshots in some order: one for each key, none twice. */
  ghost predicate ListsSessions(snapshots: seq<Selection.Snapshot>, sessions: map<string, Selection.Snapshot>) {
    exists ids :: ListedAs(ids, snapshots, sessions)
  }

  class Handler {
    const config: Config
    var sessions: map<string, Selection.Snapshot>
    var active: int
    var total: nat
    var disconnectTotal: nat
    var disconnectClose4009: nat
    var disconnectByReason: map<string, int>

    function View(): Shared
      reads this
    {
      Shared(sessions, active, total, disconnectTotal, disconnectClose4009, disconnectByReason)
    }

    constructor (config: Config)
      ensures this.config == config && View() == NO_CONNECTIONS
    {
      this.config := config;
      sessions := map[];
      active, total, disconnectTotal, disconnectClose4009 := 0, 0, 0, 0;
      disconnectByReason := map[];
    }

    method Connect()
      modifies this`active, this`total
      ensures View() == old(View()).(active := old(active) + 1, total := old(total) + 1)
    {
      active := active + 1;
      total := total + 1;
    }

    method Disconnect()
      modifies this`active
      ensures View() == old(View()).(active := old(active) - 1)
    {
      active := active - 1;
    }

    method RecordDisconnect(reason: string, isClose4009: bool)
      modifies this`disconnectTotal, this`disconnectByReason, this`disconnectClose4009
      ensures View() == Count(old(View()), reason, isClose4009)
    {
      var name := if reason == "" then "unknown" else reason;
      disconnectTotal := disconnectTotal + 1;
      var before := if name in disconnectByReason then disconnectByReason[name] else 0;
      disconnectByReason := disconnectByReason[name := before + 1];
      if isClose4009 {
        disconnectClose4009 := disconnectClose4009 + 1;
      }
    }

    method UpsertSessionSnapshot(session: SessionRuntime)
      modifies this`sessions
      ensures View() == if session.traderId == "" then old(View())
                        else ApplyEffect(old(View()), Effect.Publish(Project(session.View())))
    {
      if session.traderId == "" {
        return;
      }
      sessions := sessions[session.sessionId := Project(session.View())];
    }

    method DeleteSessionSnapshot(sessionId: string)
      modifies this`sessions
      ensures View() == if sessionId == "" then old(View()) else old(View()).(sessions := old(sessions) - {sessionId})
    {
      if sessionId == "" {
        return;
      }
      sessions := sessions - {sessionId};
    }

    /** A copy of all snapshots; the order is Go's choice. */
    method GetTraderSnapshots() returns (items: seq<Selection.Snapshot>)
      ensures ListsSessions(items, sessions)
    {
      items := [];
      var pending := sessions.Keys;
      ghost var ids: seq<string> := [];
      while pending != {}
        invariant pending <= sessions.Keys
        invariant NoDuplicates(ids) && |ids| == |items|
        invariant forall id :: id in ids <==> id in sessions && id !in pending
        invariant forall i :: 0 <= i < |ids| ==> ids[i] in sessions && items[i] == sessions[ids[i]]
        decreases pending
      {
        var id :| id in pending;
        pending := pending - {id};
        items := items + [sessions[id]];
        ids := ids + [id];
      }
      assert ListedAs(ids, items, sessions);
    }
  }

  class ConnectionLoop {
    const handler: Handler
    const session: SessionRuntime
    const entry: ConnectionEntry
    var persistedSession: bool
    var requestIds: map<string, int>
    var rateWindowStart: int
    var rateWindowCount: nat
    var unknownWindowStart: int
    var unknownActionCount: nat

    function View(): Local
      reads this, session, entry
    {
      Local(session.View(),
            SeqState(entry.seqTrackingEnabled, entry.inboundSeq, entry.outboundSeq, entry.peerAck),
            persistedSession, requestIds,
            FixedWindow.Window(rateWindowStart, rateWindowCount),
            FixedWindow.Window(unknownWindowStart, unknownActionCount))
    }

    constructor (handler: Handler, sessionId: string, conn: int, now: int)
      ensures fresh(session) && fresh(entry) && this.handler == handler
      ensures View() == Fresh(sessionId, now)
    {
      this.handler := handler;
      session := new SessionRuntime(sessionId);
      entry := new ConnectionEntry(sessionId, conn);
      persistedSession := false;
      requestIds := map[];
      rateWindowStart, rateWindowCount := now, 0;
      unknownWindowStart, unknownActionCount := now, 0;
    }

    method CountInRateWindow(now: int) returns (limited: bool)
      modifies this`rateWindowStart, this`rateWindowCount
      ensures View() == old(View()).(rate := FixedWindow.Tick(RateRule(handler.config), Some(old(View()).rate), now))
      ensures limited == !FixedWindow.Admits(RateRule(handler.config), View().rate)
    {
      if now - rateWindowStart >= SECOND {
        rateWindowStart := now;
        rateWindowCount := 0;
      }
      rateWindowCount := rateWindowCount + 1;
      limited := rateWindowCount > handler.config.maxMessagesPerSec;
    }

    method ObserveNumber(m: Envelope) returns (stage: Stage)
      modifies entry
      ensures (View(), stage) == ScreenNumber(old(View()), m)
    {
      if m.kind != "request" && m.kind != "event" {
        return WrongKind;
      }
      var verdict, expected := entry.ObserveInboundSeq(m.number);
      if verdict != Accepted {
        if verdict == Gap {
          return GapFound;
        }
        if verdict == Duplicate {
          return NumberRepeated;
        }
        return NumberMissing;
      }
      if m.ack > 0 {
        entry.ObservePeerAck(m.ack);
      }
      stage := Reached;
    }

    method CheckMessage(m: Envelope, now: int) returns (stage: Stage)
      modifies this`requestIds, entry
      ensures (View(), stage) == ScreenMessage(handler.config, old(View()), m, now)
    {
      if m.version != "" && m.version != "1" {
        return WrongVersion;
      }
      if m.kind == "request" && m.requestId != "" {
        var accepted;
        requestIds, accepted :=
          RequestDedup.CheckRequest(requestIds, RequestDedup.Request(m.requestId, now),
                                    handler.config.requestDedupWindow);
        if !accepted {
          return RepeatedRequest;
        }
      }
      stage := ObserveNumber(m);
    }

    method CheckFrame(f: Frame) returns (stage: Stage)
      modifies this`rateWindowStart, this`rateWindowCount, this`requestIds, entry
      ensures (View(), stage) == Screen(handler.config, old(View()), f)
    {
      if f.size > handler.config.maxPayloadBytes {
        return TooLarge;
      }
      var limited := CountInRateWindow(f.now);
      if limited {
        return RateLimited;
      }
      if !f.text {
        return NotText;
      }
      if f.body.None? {
        return Malformed;
      }
      stage := CheckMessage(f.body.value, f.now);
    }

    /** The tail of registration, after persistence has agreed. */
    method FinishRegistration(f: Frame, q: RegisterRequest, canonical: string, dbId: int, status: string)
      returns (replies: seq<Reply>)
      requires Trim(canonical) != ""
      modifies session, handler`sessions
      ensures var o := CompleteRegistration(handler.config, old(View()), f, q, canonical, dbId, status);
              View() == o.local && handler.View() == ApplyEffect(old(handler.View()), o.effect) && replies == o.replies
    {
      var role := Selection.NormalizeRole(q.role);
      var capabilities := Latency.Distinct(q.capabilities);
      var effective := EffectiveExchanges(capabilities, f.outside.catalog);
      var load := Selection.ClampUnit(OrZero(q.load));
      var tradeLoad := Selection.ClampUnit(OrZero(q.tradeLoad));
      if tradeLoad == 0.0 && load > 0.0 {
        tradeLoad := load;
      }
      var traderId := ProtocolTraderId(canonical);
      NeverBlank(canonical);
      session.MarkRegistered(traderId, f.outside.stampMs);
      session.SetRegistrationInfo(role, capabilities, effective, dbId, status);
      session.SetTelemetry(load, tradeLoad);
      handler.UpsertSessionSnapshot(session);
      replies := [RegisterAck(traderId, session.sessionId, SecondsCeil(handler.config.heartbeatTimeout),
                              f.outside.stampMs)];
      if |effective| > 0 {
        replies := replies + [LatencyTest(effective)];
      }
    }

    method HandleRegister(f: Frame, m: Envelope) returns (replies: seq<Reply>, exit: Option<Exit>)
      modifies this`persistedSession, session, handler`sessions
      ensures var o := Register(handler.config, old(View()), f, m);
              && View() == o.local && handler.View() == ApplyEffect(old(handler.View()), o.effect)
              && replies == o.replies && exit == o.exit
    {
      exit := None;
      if m.kind != "request" {
        return [ErrorReply("INVALID_MESSAGE")], None;
      }
      if session.traderId != "" {
        return [ErrorReply("DUPLICATE_CONNECTION")], None;
      }
      if m.register.None? {
        return [ErrorReply("INVALID_PAYLOAD")], None;
      }
      var canonical := Trim(f.outside.certificateCn);
      if canonical == "" {
        return [ErrorReply("INVALID_PAYLOAD")], None;
      }
      TrimTwice(f.outside.certificateCn);
      if !handler.config.persistence {
        replies := FinishRegistration(f, m.register.value, canonical, 0, "");
        return;
      }
      if f.outside.identity.None? {
        return [ErrorReply("INTERNAL_ERROR")], None;
      }
      var identity := f.outside.identity.value;
      TrimTwice(identity.traderId);
      if Trim(identity.traderId) != "" {
        canonical := Trim(identity.traderId);
      }
      match f.outside.create
      case ActiveSessionExists => return [ErrorReply("DUPLICATE_CONNECTION")], Some(DuplicateSession);
      case CreateFailed => return [ErrorReply("INTERNAL_ERROR")], None;
      case Created =>
        persistedSession := true;
        replies := FinishRegistration(f, m.register.value, canonical, identity.dbId, identity.status);
    }

    method RefreshProfile(latencies: Latencies)
      modifies session`latencyProfileMs
      ensures View() == old(View()).(session := WithProfile(old(View()).session, latencies))
    {
      var profile, ok := Latency.ComputeProfile(latencies, session.effective);
      if ok {
        session.SetLatencyProfile(profile);
      }
    }

    method RefreshTelemetry(load: Option<real>, tradeLoad: Option<real>)
      modifies session`loadIndex, session`tradeLoadIndex
      ensures View() == old(View()).(session := WithTelemetry(old(View()).session, load, tradeLoad))
    {
      if load.Some? || tradeLoad.Some? {
        var newLoad, newTradeLoad := session.loadIndex, session.tradeLoadIndex;
        if load.Some? {
          newLoad := Selection.ClampUnit(load.value);
        }
        if tradeLoad.Some? {
          newTradeLoad := Selection.ClampUnit(tradeLoad.value);
        }
        if tradeLoad.None? && load.Some? {
          newTradeLoad := newLoad;
        }
        session.SetTelemetry(newLoad, newTradeLoad);
      }
    }

    method AcceptHeartbeat(stampMs: Millis, q: HeartbeatRequest)
      modifies session
      ensures View() == old(View()).(session := Beaten(old(View()).session, stampMs, q))
    {
      session.MarkHeartbeat(stampMs);
      if |q.latencies| > 0 {
        NothingNegative(q.latencies);
        session.SetExchangeLatencies(q.latencies);
      }
      RefreshProfile(q.latencies);
      RefreshTelemetry(q.load, q.tradeLoad);
    }

    method HandleHeartbeat(f: Frame, m: Envelope) returns (replies: seq<Reply>)
      modifies session, handler`sessions
      ensures var o := Protocol.Heartbeat(handler.config, old(View()), f, m);
              && View() == o.local && handler.View() == ApplyEffect(old(handler.View()), o.effect)
              && replies == o.replies && o.exit == None
    {
      if session.traderId == "" {
        return [ErrorReply("INVALID_MESSAGE")];
      }
      if m.heartbeat.None? {
        return [ErrorReply("INVALID_PAYLOAD")];
      }
      var q := m.heartbeat.value;
      if q.sessionId != "" && q.sessionId != session.sessionId {
        return [ErrorReply("INVALID_PAYLOAD")];
      }
      if handler.config.persistence && persistedSession {
        if !f.outside.heartbeatPersisted {
          return [ErrorReply("INTERNAL_ERROR")];
        }
      }
      AcceptHeartbeat(f.outside.stampMs, q);
      handler.UpsertSessionSnapshot(session);
      var ack := HeartbeatAck(session.traderId, session.sessionId, session.lastHeartbeatMs);
      replies := if m.kind == "request" then [ack] else [];
    }

    method HandleLatencyResult(m: Envelope) returns (replies: seq<Reply>)
      modifies session, handler`sessions
      ensures var o := LatencyReport(old(View()), m);
              && View() == o.local && handler.View() == ApplyEffect(old(handler.View()), o.effect)
              && replies == o.replies && o.exit == None
    {
      if session.traderId == "" {
        return [ErrorReply("INVALID_MESSAGE")];
      }
      if m.latency.None? {
        return [ErrorReply("INVALID_PAYLOAD")];
      }
      var q := m.latency.value;
      if q.sessionId != "" && q.sessionId != session.sessionId {
        return [ErrorReply("INVALID_PAYLOAD")];
      }
      if |q.latencies| == 0 {
        return [ErrorReply("INVALID_PAYLOAD")];
      }
      NothingNegative(q.latencies);
      session.SetExchangeLatencies(q.latencies);
      RefreshProfile(q.latencies);
      handler.UpsertSessionSnapshot(session);
      replies := if m.kind == "request" then [LatencyAck(session.traderId, session.sessionId)] else [];
    }

    method HandleUnknown(now: int) returns (replies: seq<Reply>, exit: Option<Exit>)
      requires handler.config.maxUnknownActions > 0
      modifies this`unknownWindowStart, this`unknownActionCount
      ensures forall f: Frame :: f.now == now ==>
                var o := Unknown(handler.config, old(View()), f);
                View() == o.local && replies == o.replies && exit == o.exit && o.effect == NoEffect
    {
      if now - unknownWindowStart >= handler.config.unknownActionWindow {
        unknownWindowStart := now;
        unknownActionCount := 0;
      }
      unknownActionCount := unknownActionCount + 1;
      replies := [ErrorReply("UNKNOWN_ACTION")];
      if unknownActionCount >= handler.config.maxUnknownActions {
        return replies + [ErrorReply("ACTION_FLOOD")], Some(ActionFlood);
      }
      exit := None;
    }

    /** One iteration of the loop for a frame that was read. */
    method HandleFrame(f: Frame) returns (replies: seq<Reply>, exit: Option<Exit>)
      requires handler.config.Valid()
      modifies this, session, entry, handler
      ensures var o := OnFrame(handler.config, old(View()), f);
              && View() == o.local && handler.View() == ApplyEffect(old(handler.View()), o.effect)
              && replies == o.replies && exit == o.exit
    {
      var stage := CheckFrame(f);
      exit := None;
      match stage
      case TooLarge => replies := [ErrorReply("MESSAGE_TOO_LARGE")];
      case RateLimited => replies := [ErrorReply("RATE_LIMITED")];
      case WrongVersion => replies := [ErrorReply("UNSUPPORTED_VERSION")];
      case RepeatedRequest => replies := [ErrorReply("DUPLICATE_REQUEST")];
      case NumberRepeated => replies := [];
      case GapFound =>
        handler.RecordDisconnect(CLOSE_4009, true);
        replies, exit := [], Some(SequenceGap);
      case Reached => replies, exit := Switch(f, f.body.value);
      case _ => replies := [ErrorReply("INVALID_MESSAGE")];
    }

    method Switch(f: Frame, m: Envelope) returns (replies: seq<Reply>, exit: Option<Exit>)
      requires handler.config.Valid()
      modifies this, session, handler
      ensures var o := Act(handler.config, old(View()), f, m);
              && View() == o.local && handler.View() == ApplyEffect(old(handler.View()), o.effect)
              && replies == o.replies && exit == o.exit
    {
      exit := None;
      if m.action == "trader.register" {
        replies, exit := HandleRegister(f, m);
      } else if m.action == "trader.heartbeat" {
        replies := HandleHeartbeat(f, m);
      } else if m.action == "latency.test_result" {
        replies := HandleLatencyResult(m);
      } else {
        replies, exit := HandleUnknown(f.now);
      }
    }

    /** The read-error exit: which reason is finalised in the database, if any, is the result. */
    method LeaveOnReadError(e: ReadFailure, stampMs: nat) returns (finalized: Option<string>)
      requires session.sessionId != ""
      modifies session, handler
      ensures View() == old(View()).(session := Closed(old(session.View()), e, stampMs))
      ensures handler.View() == ReadFailed(old(handler.View()), e, session.sessionId)
      ensures finalized == if handler.config.persistence && persistedSession then Some(Classify(e).0) else None
    {
      var (reason, isClose4009) := Classify(e);
      handler.RecordDisconnect(reason, isClose4009);
      if reason == "timeout" {
        var changed := session.MarkTimedOut(stampMs);
      }
      finalized := if handler.config.persistence && persistedSession then Some(reason) else None;
      session.MarkDisconnected();
      handler.DeleteSessionSnapshot(session.sessionId);
    }

    /**
     A whole connection, undisturbed: the frames the peer sends until the loop leaves
     or the next read fails. Snapshots and counters end as the frames and the exit
     leave them; finalisation is asked for by a read error alone.
     */
    method Serve(frames: seq<Frame>, e: ReadFailure, stampMs: nat) returns (exit: Exit, finalized: Option<string>)
      requires handler.config.Valid() && session.sessionId != ""
      modifies this, session, entry, handler
      ensures var run := ConnectionRuns.ReadAll(handler.config, ConnectionRuns.Loop(old(View()), None, []), frames);
              && exit == (if run.exit.Some? then run.exit.value else ReadError)
              && View() == (if run.exit.Some? then run.local
                            else run.local.(session := Closed(run.local.session, e, stampMs)))
              && finalized == (if run.exit.None? && handler.config.persistence && run.local.persisted
                               then Some(Classify(e).0) else None)
      ensures handler.View() == AfterServe(handler.config, old(View()), old(handler.View()), frames, e,
                                           session.sessionId)
    {
      handler.Connect();
      assert handler.View() == Opened(old(handler.View()));
      var left := ReadFrames(frames);
      if left.Some? {
        handler.Disconnect();
        return left.value, None;
      }
      finalized := LeaveOnReadError(e, stampMs);
      handler.Disconnect();
      exit := ReadError;
    }

    method ReadFrames(frames: seq<Frame>) returns (left: Option<Exit>)
      requires handler.config.Valid()
      modifies this, session, entry, handler
      ensures var start := ConnectionRuns.Loop(old(View()), None, []);
              var run := ConnectionRuns.ReadAll(handler.config, start, frames);
              && left == run.exit && View() == run.local
              && handler.View() == ConnectionRuns.ShareAll(handler.config, start, old(handler.View()), frames)
    {
      ghost var start, sh := ConnectionRuns.Loop(View(), None, []), handler.View();
      for i := 0 to |frames|
        invariant var run := ConnectionRuns.ReadAll(handler.config, start, frames[..i]);
                  run.exit.None? && View() == run.local
        invariant handler.View() == ConnectionRuns.ShareAll(handler.config, start, sh, frames[..i])
      {
        assert frames[..i + 1][..i] == frames[..i];
        var replies, exit := HandleFrame(frames[i]);
        if exit.Some? {
          ConnectionRuns.NothingReadAfterExit(handler.config, start, sh, frames, i + 1);
          return exit;
        }
      }
      assert frames[..|frames|] == frames;
      left := None;
    }
  }

  /** The shared state after one undisturbed connection. */
  ghost function AfterServe(c: Config, l: Local, sh: Shared, frames: seq<Frame>, e: ReadFailure,
                            sessionId: string): Shared
    requires c.Valid()
  {
    var start := ConnectionRuns.Loop(l, None, []);
    var served := ConnectionRuns.ShareAll(c, start, Opened(sh), frames);
    var left := if ConnectionRuns.ReadAll(c, start, frames).exit.Some? then served
                else ReadFailed(served, e, sessionId);
    left.(active := left.active - 1)
  }

  function Opened(sh: Shared): Shared {
    sh.(active := sh.active + 1, total := sh.total + 1)
  }

  function ReadFailed(sh: Shared, e: ReadFailure, sessionId: string): Shared {
    var counted := Count(sh, Classify(e).0, Classify(e).1);
    counted.(sessions := counted.sessions - {sessionId})
  }

  /** Whatever the frames, the active count comes back and the total has grown by one. */
  lemma {:induction false} SharingKeepsCounts(c: Config, s: ConnectionRuns.Loop, sh: Shared, frames: seq<Frame>)
    requires c.Valid()
    ensures ConnectionRuns.ShareAll(c, s, sh, frames).active == sh.active
    ensures ConnectionRuns.ShareAll(c, s, sh, frames).total == sh.total
    decreases |frames|
  {
    if frames != [] {
      SharingKeepsCounts(c, s, sh, frames[..|frames| - 1]);
    }
  }

  lemma ServeBalances(c: Config, l: Local, sh: Shared, frames: seq<Frame>, e: ReadFailure, sessionId: string)
    requires c.Valid()
    ensures AfterServe(c, l, sh, frames, e, sessionId).active == sh.active
    ensures AfterServe(c, l, sh, frames, e, sessionId).total == sh.total + 1
  {
    var start := ConnectionRuns.Loop(l, None, []);
    SharingKeepsCounts(c, start, Opened(sh), frames);
    FailureKeepsCounts(ConnectionRuns.ShareAll(c, start, Opened(sh), frames), e, sessionId);
  }

  lemma FailureKeepsCounts(sh: Shared, e: ReadFailure, sessionId: string)
    ensures ReadFailed(sh, e, sessionId).active == sh.active && ReadFailed(sh, e, sessionId).total == sh.total
  {
  }

  lemma TrimTwice(s: string)
    ensures Trim(Trim(s)) == Trim(s)
  {
  }

  lemma NothingNegative(latencies: map<string, real>)
    requires Latency.NonNegative(latencies)
    ensures WithoutNegatives(latencies) == latencies
  {
  }
}
