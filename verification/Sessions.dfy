/** The session state machine of one connection (internal/api/ws/session.go) and its published projection. */
module Sessions {
  import opened Selection

  datatype Session = Session(
    state: SessionState,
    sessionId: string,
    traderId: string,
    traderDbId: int,
    traderStatus: string,
    registeredAtMs: nat,
    lastHeartbeatMs: nat,
    timedOutAtMs: nat,
    role: string,
    capabilities: seq<string>,
    effective: seq<string>,
    loadIndex: real,
    tradeLoadIndex: real,
    latencyProfileMs: real,
    exchangeLatencies: map<string, real>)

  function NewSession(sessionId: string): Session {
    Session(Connected, sessionId, "", 0, "", 0, 0, 0, "", [], [], 0.0, 0.0, 0.0, map[])
  }

  function WithoutNegatives(latencies: map<string, real>): map<string, real> {
    map k | k in latencies && latencies[k] >= 0.0 :: latencies[k]
  }

  function TimedOutAt(s: Session, nowMs: nat): Session {
    if s.state == Disconnected || s.state == TimedOut then s else s.(state := TimedOut, timedOutAtMs := nowMs)
  }

  /** What upsertSessionSnapshot publishes: seconds instead of milliseconds. */
  function Project(s: Session): Snapshot {
    Snapshot(s.traderId, s.traderDbId, s.traderStatus, s.sessionId, s.state,
             s.registeredAtMs / 1000, s.lastHeartbeatMs / 1000, s.timedOutAtMs / 1000,
             s.role, s.capabilities, s.effective, s.loadIndex, s.tradeLoadIndex,
             s.latencyProfileMs, s.exchangeLatencies)
  }

  /** Registered exactly when past the initial state; a heartbeat only after registration; telemetry in range. */
  ghost predicate Consistent(s: Session) {
    && (s.traderId == "" <==> s.state == Connected)
    && s.state in {Connected, Registered, Active}
    && (s.state == Active <==> s.lastHeartbeatMs > 0)
    && s.timedOutAtMs == 0
    && 0.0 <= s.loadIndex <= 1.0 && 0.0 <= s.tradeLoadIndex <= 1.0
    && s.latencyProfileMs >= 0.0
    && (forall k :: k in s.exchangeLatencies ==> s.exchangeLatencies[k] >= 0.0)
  }

  class SessionRuntime {
    const sessionId: string
    var state: SessionState
    var traderId: string
    var traderDbId: int
    var traderStatus: string
    var registeredAtMs: nat
    var lastHeartbeatMs: nat
    var timedOutAtMs: nat
    var role: string
    var capabilities: seq<string>
    var effective: seq<string>
    var loadIndex: real
    var tradeLoadIndex: real
    var latencyProfileMs: real
    var exchangeLatencies: map<string, real>

    function View(): Session
      reads this
    {
      Session(state, sessionId, traderId, traderDbId, traderStatus, registeredAtMs, lastHeartbeatMs, timedOutAtMs,
              role, capabilities, effective, loadIndex, tradeLoadIndex, latencyProfileMs, exchangeLatencies)
    }

    constructor (sessionId: string)
      ensures View() == NewSession(sessionId)
    {
      this.sessionId := sessionId;
      state := Connected;
      traderId, traderDbId, traderStatus := "", 0, "";
      registeredAtMs, lastHeartbeatMs, timedOutAtMs := 0, 0, 0;
      role, capabilities, effective := "", [], [];
      loadIndex, tradeLoadIndex, latencyProfileMs := 0.0, 0.0, 0.0;
      exchangeLatencies := map[];
    }

    method MarkRegistered(traderId: string, nowMs: nat)
      modifies this`traderId, this`registeredAtMs, this`state
      ensures View() == old(View()).(traderId := traderId, registeredAtMs := nowMs, state := Registered)
    {
      this.traderId := traderId;
      registeredAtMs := nowMs;
      state := Registered;
    }

    method SetRegistrationInfo(role: string, capabilities: seq<string>, effective: seq<string>, dbId: int,
                               status: string)
      modifies this`role, this`capabilities, this`effective, this`traderDbId, this`traderStatus
      ensures View() == old(View()).(role := role, capabilities := capabilities, effective := effective,
                                     traderDbId := dbId, traderStatus := status)
    {
      this.role := role;
      this.capabilities := capabilities;
      this.effective := effective;
      traderDbId := dbId;
      traderStatus := status;
    }

    method MarkHeartbeat(nowMs: nat)
      modifies this`lastHeartbeatMs, this`state
      ensures View() == old(View()).(lastHeartbeatMs := nowMs, state := Active)
    {
      lastHeartbeatMs := nowMs;
      state := Active;
    }

    method SetTelemetry(load: real, tradeLoad: real)
      modifies this`loadIndex, this`tradeLoadIndex
      ensures View() == old(View()).(loadIndex := ClampUnit(load), tradeLoadIndex := ClampUnit(tradeLoad))
    {
      loadIndex := ClampUnit(load);
      tradeLoadIndex := ClampUnit(tradeLoad);
    }

    method SetLatencyProfile(profile: real)
      modifies this`latencyProfileMs
      ensures View() == old(View()).(latencyProfileMs := if profile < 0.0 then 0.0 else profile)
    {
      latencyProfileMs := if profile < 0.0 then 0.0 else profile;
    }

    method SetExchangeLatencies(latencies: map<string, real>)
      modifies this`exchangeLatencies
      ensures View() == old(View()).(exchangeLatencies := WithoutNegatives(latencies))
    {
      if |latencies| == 0 {
        exchangeLatencies := map[];
        return;
      }
      var items: map<string, real> := map[];
      var pending := latencies.Keys;
      while pending != {}
        invariant pending <= latencies.Keys
        invariant items == map k | k in latencies && k !in pending && latencies[k] >= 0.0 :: latencies[k]
        decreases pending
      {
        var k :| k in pending;
        pending := pending - {k};
        if latencies[k] < 0.0 {
          continue;
        }
        items := items[k := latencies[k]];
      }
      exchangeLatencies := items;
    }

    method MarkTimedOut(nowMs: nat) returns (changed: bool)
      modifies this`state, this`timedOutAtMs
      ensures View() == TimedOutAt(old(View()), nowMs)
      ensures changed <==> old(state) != Disconnected && old(state) != TimedOut
    {
      if state == Disconnected || state == TimedOut {
        return false;
      }
      state := TimedOut;
      timedOutAtMs := nowMs;
      changed := true;
    }

    method MarkDisconnected()
      modifies this`state
      ensures View() == old(View()).(state := Disconnected)
    {
      state := Disconnected;
    }
  }
}
