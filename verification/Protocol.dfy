/**
 One inbound frame, as the Serve loop of internal/api/ws/handler.go treats it:
 the fixed pipeline of checks (Screen), the action switch (Act), and what the
 frame changes outside the connection (Effect). HandlerLoop.dfy proves the loop
 body against OnFrame; ConnectionRuns.dfy and System.dfy reason about runs.
 What the loop reads from outside arrives with the frame.
 */
module Protocol {
  import opened Sequences
  import opened ConnectionEntries
  import opened Sessions
  import opened TraderNames
  import Selection
  import FixedWindow
  import RequestDedup
  import Latency

  const SECOND: int := 1_000_000_000

  type Millis = n: int | n > 0 witness 1

  /** Exchange latencies extracted from a payload: names normalised, values not negative. */
  type Latencies = m: map<string, real> | Latency.NonNegative(m) && "" !in m witness map[]

  datatype RegisterRequest = RegisterRequest(role: string, capabilities: seq<string>, load: Option<real>,
                                             tradeLoad: Option<real>)
  datatype HeartbeatRequest = HeartbeatRequest(sessionId: string, latencies: Latencies, load: Option<real>,
                                               tradeLoad: Option<real>)
  datatype LatencyResult = LatencyResult(sessionId: string, latencies: Latencies)

  /** A message; the payload as each of the three actions would parse it. */
  datatype Envelope = Envelope(
    kind: string,
    action: string,
    version: string,
    number: u64,
    ack: u64,
    requestId: string,
    register: Option<RegisterRequest>,
    heartbeat: Option<HeartbeatRequest>,
    latency: Option<LatencyResult>)

  datatype Identity = Identity(dbId: int, traderId: string, status: string)

  datatype CreateReply = Created | ActiveSessionExists | CreateFailed

  /** Clock and persistence answers while the frame is handled. */
  datatype Outside = Outside(
    stampMs: Millis,
    certificateCn: string,
    catalog: seq<string>,
    identity: Option<Identity>,
    create: CreateReply,
    heartbeatPersisted: bool)

  /** body is absent when the payload is not JSON. */
  datatype Frame = Frame(size: nat, text: bool, body: Option<Envelope>, now: int, outside: Outside)

  datatype Config = Config(
    maxPayloadBytes: nat,
    maxMessagesPerSec: nat,
    maxUnknownActions: nat,
    unknownActionWindow: int,
    requestDedupWindow: int,
    heartbeatTimeout: int,
    persistence: bool)
  {
    ghost predicate Valid() {
      maxPayloadBytes > 0 && maxMessagesPerSec > 0 && maxUnknownActions > 0 && unknownActionWindow > 0
      && requestDedupWindow > 0 && heartbeatTimeout > 0
    }
  }

  /** The local variables of the loop. */
  datatype Local = Local(
    session: Session,
    numbers: SeqState,
    persisted: bool,
    ids: map<string, int>,
    rate: FixedWindow.Window,
    unknown: FixedWindow.Window)

  function Fresh(sessionId: string, now: int): Local {
    Local(NewSession(sessionId), FRESH, false, map[], FixedWindow.Window(now, 0), FixedWindow.Window(now, 0))
  }

  datatype Exit = ReadError | SequenceGap | ActionFlood | DuplicateSession

  /** How far a frame gets. */
  datatype Stage =
    | TooLarge | RateLimited | NotText | Malformed | WrongVersion | RepeatedRequest | WrongKind
    | GapFound | NumberRepeated | NumberMissing | Reached

  datatype Effect = NoEffect | Publish(snapshot: Selection.Snapshot) | CountDisconnect(reason: string, close4009: bool)

  datatype Reply =
    | ErrorReply(code: string)
    | RegisterAck(traderId: string, sessionId: string, timeoutSec: int, serverTime: int)
    | LatencyTest(exchanges: seq<string>)
    | HeartbeatAck(traderId: string, sessionId: string, serverTime: int)
    | LatencyAck(traderId: string, sessionId: string)

  datatype Outcome = Outcome(local: Local, stage: Stage, effect: Effect, replies: seq<Reply>, exit: Option<Exit>)

  const CLOSE_4009: string := "close_4009_sequence_gap"

  // ---- The checks before the switch -------------------------------------

  function RateRule(c: Config): FixedWindow.Rule {
    FixedWindow.Rule(c.maxMessagesPerSec, SECOND, false)
  }

  /** Admits the unknown actions a connection survives. */
  function UnknownRule(c: Config): FixedWindow.Rule
    requires c.maxUnknownActions > 0
  {
    FixedWindow.Rule(c.maxUnknownActions - 1, c.unknownActionWindow, false)
  }

  predicate HasRequestId(m: Envelope) {
    m.kind == "request" && m.requestId != ""
  }

  function Screen(c: Config, l: Local, f: Frame): (r: (Local, Stage))
    ensures r.1 == Reached ==> f.body.Some?
  {
    if f.size > c.maxPayloadBytes then (l, TooLarge)
    else
      var counted := l.(rate := FixedWindow.Tick(RateRule(c), Some(l.rate), f.now));
      if !FixedWindow.Admits(RateRule(c), counted.rate) then (counted, RateLimited)
      else if !f.text then (counted, NotText)
      else if f.body.None? then (counted, Malformed)
      else ScreenMessage(c, counted, f.body.value, f.now)
  }

  function ScreenMessage(c: Config, l: Local, m: Envelope, now: int): (Local, Stage) {
    if m.version != "" && m.version != "1" then (l, WrongVersion)
    else if !HasRequestId(m) then ScreenNumber(l, m)
    else
      var (ids, accepted) := RequestDedup.Check(l.ids, RequestDedup.Request(m.requestId, now), c.requestDedupWindow);
      if !accepted then (l.(ids := ids), RepeatedRequest) else ScreenNumber(l.(ids := ids), m)
  }

  function ScreenNumber(l: Local, m: Envelope): (Local, Stage) {
    if m.kind != "request" && m.kind != "event" then (l, WrongKind)
    else
      var (numbers, verdict, _) := Observe(l.numbers, m.number);
      match verdict
      case Gap => (l.(numbers := numbers), GapFound)
      case Duplicate => (l.(numbers := numbers), NumberRepeated)
      case Invalid => (l.(numbers := numbers), NumberMissing)
      case Accepted => (l.(numbers := ObserveAck(numbers, m.ack)), Reached)
  }

  // ---- The action switch ------------------------------------------------

  function Refuse(l: Local, code: string): Outcome {
    Outcome(l, Reached, NoEffect, [ErrorReply(code)], None)
  }

  function OrZero(v: Option<real>): real {
    if v.Some? then v.value else 0.0
  }

  /** buildEffectiveExchanges on the enabled codes of the catalog. */
  function EffectiveExchanges(capabilities: seq<string>, catalog: seq<string>): seq<string> {
    if capabilities == [] then catalog
    else FilterMap((name: string) => if name in catalog then Some(name) else None, capabilities)
  }

  function SecondsCeil(d: int): int {
    if d <= 0 then 1 else (d + SECOND - 1) / SECOND
  }

  /** The identity record's own id wins over the certificate name. */
  function Canonical(certificateCn: string, identity: Identity): string {
    if Trim(identity.traderId) != "" then Trim(identity.traderId) else Trim(certificateCn)
  }

  function Registered(s: Session, f: Frame, q: RegisterRequest, traderId: string, dbId: int, status: string): Session {
    var capabilities := Latency.Distinct(q.capabilities);
    s.(state := Selection.Registered, traderId := traderId, registeredAtMs := f.outside.stampMs,
       role := Selection.NormalizeRole(q.role), capabilities := capabilities,
       effective := EffectiveExchanges(capabilities, f.outside.catalog),
       traderDbId := dbId, traderStatus := status,
       loadIndex := Selection.ClampUnit(OrZero(q.load)),
       tradeLoadIndex := Selection.EffectiveTradeLoad(OrZero(q.tradeLoad), OrZero(q.load)))
  }

  function CompleteRegistration(c: Config, l: Local, f: Frame, q: RegisterRequest, canonical: string, dbId: int,
                                status: string): Outcome {
    var session := Registered(l.session, f, q, ProtocolTraderId(canonical), dbId, status);
    Outcome(l.(session := session), Reached, Publish(Project(session)),
            [RegisterAck(session.traderId, session.sessionId, SecondsCeil(c.heartbeatTimeout), f.outside.stampMs)]
            + (if session.effective != [] then [LatencyTest(session.effective)] else []),
            None)
  }

  function Register(c: Config, l: Local, f: Frame, m: Envelope): Outcome {
    if m.kind != "request" then Refuse(l, "INVALID_MESSAGE")
    else if l.session.traderId != "" then Refuse(l, "DUPLICATE_CONNECTION")
    else if m.register.None? || Trim(f.outside.certificateCn) == "" then Refuse(l, "INVALID_PAYLOAD")
    else if !c.persistence then CompleteRegistration(c, l, f, m.register.value, Trim(f.outside.certificateCn), 0, "")
    else if f.outside.identity.None? then Refuse(l, "INTERNAL_ERROR")
    else
      match f.outside.create
      case ActiveSessionExists => Refuse(l, "DUPLICATE_CONNECTION").(exit := Some(DuplicateSession))
      case CreateFailed => Refuse(l, "INTERNAL_ERROR")
      case Created =>
        var identity := f.outside.identity.value;
        CompleteRegistration(c, l.(persisted := true), f, m.register.value,
                             Canonical(f.outside.certificateCn, identity), identity.dbId, identity.status)
  }

  ghost function WithProfile(s: Session, latencies: Latencies): Session {
    match Latency.ProfileFor(latencies, s.effective)
    case None => s
    case Some(profile) => s.(latencyProfileMs := if profile < 0.0 then 0.0 else profile)
  }

  function WithTelemetry(s: Session, load: Option<real>, tradeLoad: Option<real>): Session {
    var newLoad := if load.Some? then Selection.ClampUnit(load.value) else s.loadIndex;
    var newTradeLoad :=
      if tradeLoad.Some? then Selection.ClampUnit(tradeLoad.value)
      else if load.Some? then newLoad else s.tradeLoadIndex;
    if load.None? && tradeLoad.None? then s
    else s.(loadIndex := Selection.ClampUnit(newLoad), tradeLoadIndex := Selection.ClampUnit(newTradeLoad))
  }

  ghost function Beaten(s: Session, stampMs: Millis, q: HeartbeatRequest): Session {
    var beat := s.(state := Selection.Active, lastHeartbeatMs := stampMs);
    var measured := if q.latencies != map[] then beat.(exchangeLatencies := q.latencies) else beat;
    WithTelemetry(WithProfile(measured, q.latencies), q.load, q.tradeLoad)
  }

  predicate WrongSession(l: Local, sessionId: string) {
    sessionId != "" && sessionId != l.session.sessionId
  }

  ghost function Heartbeat(c: Config, l: Local, f: Frame, m: Envelope): Outcome {
    if l.session.traderId == "" then Refuse(l, "INVALID_MESSAGE")
    else if m.heartbeat.None? || WrongSession(l, m.heartbeat.value.sessionId) then Refuse(l, "INVALID_PAYLOAD")
    else if c.persistence && l.persisted && !f.outside.heartbeatPersisted then Refuse(l, "INTERNAL_ERROR")
    else
      var session := Beaten(l.session, f.outside.stampMs, m.heartbeat.value);
      Outcome(l.(session := session), Reached, Publish(Project(session)),
              if m.kind == "request" then [HeartbeatAck(session.traderId, session.sessionId, session.lastHeartbeatMs)]
              else [],
              None)
  }

  ghost function Measured(s: Session, latencies: Latencies): Session {
    WithProfile(s.(exchangeLatencies := latencies), latencies)
  }

  ghost function LatencyReport(l: Local, m: Envelope): Outcome {
    if l.session.traderId == "" then Refuse(l, "INVALID_MESSAGE")
    else if m.latency.None? || WrongSession(l, m.latency.value.sessionId) || m.latency.value.latencies == map[]
    then Refuse(l, "INVALID_PAYLOAD")
    else
      var session := Measured(l.session, m.latency.value.latencies);
      Outcome(l.(session := session), Reached, Publish(Project(session)),
              if m.kind == "request" then [LatencyAck(session.traderId, session.sessionId)] else [], None)
  }

  function Unknown(c: Config, l: Local, f: Frame): Outcome
    requires c.maxUnknownActions > 0
  {
    var counted := l.(unknown := FixedWindow.Tick(UnknownRule(c), Some(l.unknown), f.now));
    if FixedWindow.Admits(UnknownRule(c), counted.unknown) then Refuse(counted, "UNKNOWN_ACTION")
    else Outcome(counted, Reached, NoEffect, [ErrorReply("UNKNOWN_ACTION"), ErrorReply("ACTION_FLOOD")],
                 Some(ActionFlood))
  }

  predicate Known(action: string) {
    action == "trader.register" || action == "trader.heartbeat" || action == "latency.test_result"
  }

  ghost function Act(c: Config, l: Local, f: Frame, m: Envelope): Outcome
    requires c.Valid()
  {
    if m.action == "trader.register" then Register(c, l, f, m)
    else if m.action == "trader.heartbeat" then Heartbeat(c, l, f, m)
    else if m.action == "latency.test_result" then LatencyReport(l, m)
    else Unknown(c, l, f)
  }

  /** What a frame gets that does not reach the switch. */
  function StoppedAt(l: Local, stage: Stage): Outcome
    requires stage != Reached
  {
    match stage
    case TooLarge => Outcome(l, stage, NoEffect, [ErrorReply("MESSAGE_TOO_LARGE")], None)
    case RateLimited => Outcome(l, stage, NoEffect, [ErrorReply("RATE_LIMITED")], None)
    case WrongVersion => Outcome(l, stage, NoEffect, [ErrorReply("UNSUPPORTED_VERSION")], None)
    case RepeatedRequest => Outcome(l, stage, NoEffect, [ErrorReply("DUPLICATE_REQUEST")], None)
    case GapFound => Outcome(l, stage, CountDisconnect(CLOSE_4009, true), [], Some(SequenceGap))
    case NumberRepeated => Outcome(l, stage, NoEffect, [], None)
    case _ => Outcome(l, stage, NoEffect, [ErrorReply("INVALID_MESSAGE")], None)
  }

  ghost function OnFrame(c: Config, l: Local, f: Frame): Outcome
    requires c.Valid()
  {
    var (screened, stage) := Screen(c, l, f);
    if stage != Reached then StoppedAt(screened, stage)
    else Act(c, screened, f, f.body.value)
  }

  // ---- The end of the connection ----------------------------------------

  /** What the reader reports: a peer's close code, or an error and what its text says. */
  datatype ReadFailure = ReadFailure(closeCode: Option<int>, saysTimeout: bool, eof: bool)

  function Classify(e: ReadFailure): (string, bool) {
    if e.closeCode == Some(4009) then (CLOSE_4009, true)
    else if e.closeCode.Some? && e.closeCode.value in {1000, 1001, 1005, 1006} then ("client_close", false)
    else if e.saysTimeout then ("timeout", false)
    else if e.eof then ("client_close", false)
    else ("read_error", false)
  }

  /** The session when the loop leaves through a read error. */
  function Closed(s: Session, e: ReadFailure, stampMs: nat): Session {
    (if Classify(e).0 == "timeout" then TimedOutAt(s, stampMs) else s).(state := Selection.Disconnected)
  }

  // ---- State shared by all connections ----------------------------------

  datatype Shared = Shared(
    sessions: map<string, Selection.Snapshot>,
    active: int,
    total: nat,
    disconnectTotal: nat,
    close4009: nat,
    byReason: map<string, int>)

  const NO_CONNECTIONS: Shared := Shared(map[], 0, 0, 0, 0, map[])

  function Count(sh: Shared, reason: string, close4009: bool): Shared {
    var name := if reason == "" then "unknown" else reason;
    sh.(disconnectTotal := sh.disconnectTotal + 1,
        byReason := sh.byReason[name := (if name in sh.byReason then sh.byReason[name] else 0) + 1],
        close4009 := sh.close4009 + if close4009 then 1 else 0)
  }

  function ApplyEffect(sh: Shared, e: Effect): Shared {
    match e
    case NoEffect => sh
    case Publish(snapshot) => sh.(sessions := sh.sessions[snapshot.sessionId := snapshot])
    case CountDisconnect(reason, close4009) => Count(sh, reason, close4009)
  }
}
