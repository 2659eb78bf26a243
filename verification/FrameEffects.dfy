/**
 What one frame does, condition by condition (internal/api/ws/handler.go): when it
 gets to the action switch, and what each action then changes.
 */
module FrameEffects {
  import opened Sequences
  import opened ConnectionEntries
  import opened Sessions
  import opened TraderNames
  import opened Protocol
  import ConnectionRuns
  import System
  import Selection
  import HandlerLoop
  import Latency

  // ---- The checks ------------------------------------------------------------

  /** Frames in the current second, this one included; the window is renewed one second after it opened. */
  function RateCount(l: Local, now: int): nat {
    if now >= l.rate.start + 1_000_000_000 then 1 else l.rate.count + 1
  }

  ghost predicate FreshId(c: Config, l: Local, m: Envelope, now: int) {
    m.kind == "request" && m.requestId != "" && m.requestId in l.ids ==>
      l.ids[m.requestId] + c.requestDedupWindow < now
  }

  /** Everything before the sequence check is in order. */
  ghost predicate WellFormed(c: Config, l: Local, f: Frame) {
    && f.size <= c.maxPayloadBytes
    && RateCount(l, f.now) <= c.maxMessagesPerSec
    && f.text && f.body.Some?
    && (f.body.value.version == "" || f.body.value.version == "1")
    && FreshId(c, l, f.body.value, f.now)
    && (f.body.value.kind == "request" || f.body.value.kind == "event")
  }

  /** A frame comes to the sequence check exactly when it is well-formed, timely and not repeated. */
  lemma WellFormedExactly(c: Config, l: Local, f: Frame)
    requires c.Valid()
    ensures !ConnectionRuns.Early(OnFrame(c, l, f).stage) <==> WellFormed(c, l, f)
  {
    var (screened, stage) := Screen(c, l, f);
    if stage == Reached {
      ConnectionRuns.ActKeeps(c, screened, f, f.body.value);
    }
  }

  /** The first check that fails names the refusal. */
  lemma RefusalsInOrder(c: Config, l: Local, f: Frame)
    requires c.Valid()
    ensures var stage := OnFrame(c, l, f).stage;
            var rated := f.size <= c.maxPayloadBytes && RateCount(l, f.now) <= c.maxMessagesPerSec;
            && (stage == TooLarge <==> f.size > c.maxPayloadBytes)
            && (stage == RateLimited <==> f.size <= c.maxPayloadBytes && RateCount(l, f.now) > c.maxMessagesPerSec)
            && (stage == NotText <==> rated && !f.text)
            && (stage == Malformed <==> rated && f.text && f.body.None?)
            && (stage == WrongVersion <==> rated && f.text && f.body.Some? && f.body.value.version !in {"", "1"})
            && (stage == RepeatedRequest <==>
                  rated && f.text && f.body.Some? && f.body.value.version in {"", "1"}
                  && !FreshId(c, l, f.body.value, f.now))
            && (stage == WrongKind <==>
                  rated && f.text && f.body.Some? && f.body.value.version in {"", "1"}
                  && FreshId(c, l, f.body.value, f.now) && f.body.value.kind !in {"request", "event"})
  {
    var (screened, stage) := Screen(c, l, f);
    if stage == Reached {
      ConnectionRuns.ActKeeps(c, screened, f, f.body.value);
    }
  }

  // ---- Registration ----------------------------------------------------------

  ghost predicate RegisterAccepted(c: Config, s: Session, f: Frame) {
    && f.body.Some? && f.body.value.action == "trader.register" && f.body.value.kind == "request"
    && s.traderId == "" && f.body.value.register.Some? && Trim(f.outside.certificateCn) != ""
    && (c.persistence ==> f.outside.identity.Some? && f.outside.create.Created?)
  }

  /** The name the database knows the trader by, if it has one, else the certificate's. */
  ghost predicate NamedBy(c: Config, traderId: string, f: Frame) {
    var known := c.persistence && f.outside.identity.Some? && Trim(f.outside.identity.value.traderId) != "";
    && (known ==> traderId == ProtocolTraderId(f.outside.identity.value.traderId))
    && (!known ==> traderId == ProtocolTraderId(f.outside.certificateCn))
  }

  /** What a session takes from its register frame for good. */
  ghost predicate Carries(c: Config, s: Session, f: Frame) {
    && f.body.Some? && f.body.value.register.Some?
    && s.traderId != "" && NamedBy(c, s.traderId, f)
    && (c.persistence ==>
          && f.outside.identity.Some?
          && s.traderStatus == f.outside.identity.value.status && s.traderDbId == f.outside.identity.value.dbId)
    && (!c.persistence ==> s.traderStatus == "" && s.traderDbId == 0)
    && (var asked := f.body.value.register.value.role;
        s.role == if asked in {"monitor", "trade", "both"} then asked else "both")
    && s.registeredAtMs == f.outside.stampMs
    && Offers(s, f.body.value.register.value.capabilities, f.outside.catalog)
  }

  /** The exchanges of a session: those asked for that the catalog knows, or all of the catalog. */
  ghost predicate Offers(s: Session, asked: seq<string>, catalog: seq<string>) {
    && (forall name :: name in s.capabilities <==> name in asked && name != "")
    && (s.capabilities != [] ==>
          forall name :: name in s.effective <==> name in asked && name != "" && name in catalog)
    && (s.capabilities == [] ==> s.effective == catalog)
  }

  predicate IsClamped(v: real, raw: real) {
    0.0 <= v <= 1.0 && (0.0 <= raw <= 1.0 ==> v == raw) && (raw < 0.0 ==> v == 0.0) && (raw > 1.0 ==> v == 1.0)
  }

  lemma EffectiveIsOffered(capabilities: seq<string>, catalog: seq<string>)
    requires capabilities != []
    ensures forall name :: name in EffectiveExchanges(capabilities, catalog) <==>
            name in capabilities && name in catalog
  {
    var f := (name: string) => if name in catalog then Some(name) else None;
    forall name | name in capabilities && name in catalog ensures name in EffectiveExchanges(capabilities, catalog) {
      assert f(name) == Some(name);
    }
  }

  /**
   A frame that gets to the switch registers the connection exactly when it is a
   register request on an unregistered connection with a certificate name and, with
   persistence, an identity and a created row; the session is then made of the
   frame, its certificate and the identity record, and published. The load is the
   one asked for, which also stands in for a missing trade load.
   */
  lemma RegistersExactly(c: Config, l: Local, f: Frame)
    requires c.Valid() && System.LocalInv(c, l) && OnFrame(c, l, f).stage == Reached
    ensures var o := OnFrame(c, l, f);
            && (o.local.session.traderId != l.session.traderId <==> RegisterAccepted(c, l.session, f))
            && (RegisterAccepted(c, l.session, f) ==>
                  && Carries(c, o.local.session, f)
                  && o.local.session.state == Selection.Registered && o.effect == Publish(Project(o.local.session))
                  && var q := f.body.value.register.value;
                     && (q.load.Some? ==> IsClamped(o.local.session.loadIndex, q.load.value))
                     && (q.load.None? ==> o.local.session.loadIndex == 0.0)
                     && (q.tradeLoad.Some? && q.tradeLoad.value > 0.0 ==>
                           IsClamped(o.local.session.tradeLoadIndex, q.tradeLoad.value))
                     && (q.tradeLoad.None? || q.tradeLoad.value <= 0.0 ==>
                           o.local.session.tradeLoadIndex == o.local.session.loadIndex))
  {
    System.ScreenKeeps(c, l, f);
    System.FrameKeeps(c, l, f);
    var (screened, stage) := Screen(c, l, f);
    assert stage == Reached;
    if RegisterAccepted(c, l.session, f) {
      AcceptedRegisters(c, screened, f);
    }
  }

  lemma AcceptedRegisters(c: Config, l: Local, f: Frame)
    requires RegisterAccepted(c, l.session, f)
    ensures var o, q := Register(c, l, f, f.body.value), f.body.value.register.value;
            && Carries(c, o.local.session, f)
            && o.local.session.state == Selection.Registered && o.effect == Publish(Project(o.local.session))
            && (q.load.Some? ==> IsClamped(o.local.session.loadIndex, q.load.value))
            && (q.load.None? ==> o.local.session.loadIndex == 0.0)
            && (q.tradeLoad.Some? && q.tradeLoad.value > 0.0 ==>
                  IsClamped(o.local.session.tradeLoadIndex, q.tradeLoad.value))
            && (q.tradeLoad.None? || q.tradeLoad.value <= 0.0 ==>
                  o.local.session.tradeLoadIndex == o.local.session.loadIndex)
  {
    var q := f.body.value.register.value;
    var capabilities := Latency.Distinct(q.capabilities);
    if capabilities != [] {
      EffectiveIsOffered(capabilities, f.outside.catalog);
    }
    HandlerLoop.TrimTwice(f.outside.certificateCn);
    NeverBlank(Trim(f.outside.certificateCn));
    if f.outside.identity.Some? {
      HandlerLoop.TrimTwice(f.outside.identity.value.traderId);
      NeverBlank(Trim(f.outside.identity.value.traderId));
    }
  }

  /** What a registered session keeps, whatever frame follows. */
  ghost predicate SameRegistration(s: Session, t: Session) {
    && t.sessionId == s.sessionId && t.traderId == s.traderId
    && t.traderStatus == s.traderStatus && t.traderDbId == s.traderDbId && t.role == s.role
    && t.registeredAtMs == s.registeredAtMs && t.capabilities == s.capabilities && t.effective == s.effective
  }

  lemma BeatKeepsRegistration(s: Session, stampMs: Millis, q: HeartbeatRequest)
    ensures SameRegistration(s, Beaten(s, stampMs, q))
  {
    var beat := s.(state := Selection.Active, lastHeartbeatMs := stampMs);
    var measured := if q.latencies != map[] then beat.(exchangeLatencies := q.latencies) else beat;
    assert SameRegistration(s, WithProfile(measured, q.latencies));
  }

  lemma ActKeepsRegistration(c: Config, l: Local, f: Frame, m: Envelope)
    requires c.Valid() && l.session.traderId != ""
    ensures SameRegistration(l.session, Act(c, l, f, m).local.session)
  {
    if m.action == "trader.heartbeat" && m.heartbeat.Some? {
      BeatKeepsRegistration(l.session, f.outside.stampMs, m.heartbeat.value);
    }
  }

  lemma FrameKeepsRegistration(c: Config, l: Local, f: Frame)
    requires c.Valid()
    ensures l.session.traderId != "" ==> SameRegistration(l.session, OnFrame(c, l, f).local.session)
  {
    System.ScreenKeeps(c, l, f);
    var (screened, stage) := Screen(c, l, f);
    if stage == Reached && l.session.traderId != "" {
      ActKeepsRegistration(c, screened, f, f.body.value);
    }
  }

  // ---- Heartbeats and latency reports ------------------------------------------

  ghost predicate HeartbeatAccepted(c: Config, l: Local, f: Frame) {
    && f.body.Some? && f.body.value.action == "trader.heartbeat"
    && l.session.traderId != "" && f.body.value.heartbeat.Some?
    && f.body.value.heartbeat.value.sessionId in {"", l.session.sessionId}
    && (c.persistence ==> f.outside.heartbeatPersisted)
  }

  /** A profile is refreshed when some of the session's exchanges are reported, and kept otherwise. */
  ghost predicate ProfileRefreshed(effective: seq<string>, was: real, now: real, latencies: Latencies) {
    var measured := Latency.Listed(latencies, effective);
    && (measured == {} ==> now == was)
    && (measured != {} ==>
          Latency.IsProfile(latencies, measured, if effective == [] then 0 else |effective| - |measured|, now))
  }

  ghost predicate TelemetryRefreshed(s: Session, t: Session, load: Option<real>, tradeLoad: Option<real>) {
    && (load.Some? ==> IsClamped(t.loadIndex, load.value))
    && (load.None? ==> t.loadIndex == s.loadIndex)
    && (tradeLoad.Some? ==> IsClamped(t.tradeLoadIndex, tradeLoad.value))
    && (tradeLoad.None? ==> t.tradeLoadIndex == if load.Some? then t.loadIndex else s.tradeLoadIndex)
  }

  ghost predicate Refreshed(s: Session, t: Session, stampMs: Millis, q: HeartbeatRequest) {
    && t.state == Selection.Active && t.lastHeartbeatMs == stampMs
    && t.exchangeLatencies == (if q.latencies == map[] then s.exchangeLatencies else q.latencies)
    && ProfileRefreshed(s.effective, s.latencyProfileMs, t.latencyProfileMs, q.latencies)
    && TelemetryRefreshed(s, t, q.load, q.tradeLoad)
  }

  lemma ProfileRefreshes(s: Session, latencies: Latencies)
    ensures ProfileRefreshed(s.effective, s.latencyProfileMs, WithProfile(s, latencies).latencyProfileMs, latencies)
    ensures WithProfile(s, latencies) == s.(latencyProfileMs := WithProfile(s, latencies).latencyProfileMs)
  {
    Latency.HandlerMeans(latencies, s.effective);
    if Latency.ProfileFor(latencies, s.effective).Some? {
      ProfileNotNegative(latencies, Latency.Listed(latencies, s.effective),
                         if s.effective == [] then 0 else |s.effective| - |Latency.Listed(latencies, s.effective)|,
                         Latency.ProfileFor(latencies, s.effective).value);
      Latency.NamesBound(Latency.Listed(latencies, s.effective), s.effective);
    }
  }

  lemma ProfileNotNegative(latencies: Latencies, measured: set<string>, missing: int, profile: real)
    requires measured <= latencies.Keys && Latency.IsProfile(latencies, measured, missing, profile)
    ensures missing >= 0 ==> profile >= 0.0
  {
    var lo, v, hi :| lo in measured && v in measured && hi in measured
                     && Latency.ProfileAt(latencies, measured, lo, v, hi)
                     && profile == Latency.Charged(latencies[v] + (latencies[hi] - latencies[lo]) / 10.0, missing);
    assert latencies[v] >= 0.0 && latencies[hi] >= latencies[lo];
    assert missing >= 0 ==> missing as real * 300.0 >= 0.0;
  }

  lemma TelemetryRefreshes(s: Session, load: Option<real>, tradeLoad: Option<real>)
    requires 0.0 <= s.loadIndex <= 1.0 && 0.0 <= s.tradeLoadIndex <= 1.0
    ensures var t := WithTelemetry(s, load, tradeLoad);
            && TelemetryRefreshed(s, t, load, tradeLoad)
            && t == s.(loadIndex := t.loadIndex, tradeLoadIndex := t.tradeLoadIndex)
  {
  }

  lemma BeatRefreshes(s: Session, stampMs: Millis, q: HeartbeatRequest)
    requires 0.0 <= s.loadIndex <= 1.0 && 0.0 <= s.tradeLoadIndex <= 1.0
    ensures Refreshed(s, Beaten(s, stampMs, q), stampMs, q)
  {
    var beat := s.(state := Selection.Active, lastHeartbeatMs := stampMs);
    var measured := if q.latencies != map[] then beat.(exchangeLatencies := q.latencies) else beat;
    ProfileRefreshes(measured, q.latencies);
    TelemetryRefreshes(WithProfile(measured, q.latencies), q.load, q.tradeLoad);
  }

  /**
   A heartbeat that gets to the switch is taken exactly when the connection is
   registered, the payload names no other session and the database, if asked, has
   taken it; it then dates and refreshes the session and publishes it, and otherwise
   changes nothing.
   */
  lemma BeatsExactly(c: Config, l: Local, f: Frame)
    requires c.Valid() && System.LocalInv(c, l) && OnFrame(c, l, f).stage == Reached
    requires f.body.Some? && f.body.value.action == "trader.heartbeat"
    ensures var o := OnFrame(c, l, f);
            && (HeartbeatAccepted(c, l, f) ==>
                  && Refreshed(l.session, o.local.session, f.outside.stampMs, f.body.value.heartbeat.value)
                  && o.effect == Publish(Project(o.local.session)))
            && (!HeartbeatAccepted(c, l, f) ==> o.local.session == l.session && o.effect == NoEffect)
  {
    System.ScreenKeeps(c, l, f);
    var (screened, stage) := Screen(c, l, f);
    assert stage == Reached;
    if HeartbeatAccepted(c, l, f) {
      BeatRefreshes(l.session, f.outside.stampMs, f.body.value.heartbeat.value);
    }
  }

  /** A latency report of a registered session that it does not misname. */
  predicate ReportAccepted(s: Session, m: Envelope) {
    && s.traderId != "" && m.latency.Some? && m.latency.value.latencies != map[]
    && m.latency.value.sessionId in {"", s.sessionId}
  }

  ghost predicate Measures(s: Session, t: Session, latencies: Latencies) {
    && t == s.(exchangeLatencies := latencies, latencyProfileMs := t.latencyProfileMs)
    && ProfileRefreshed(s.effective, s.latencyProfileMs, t.latencyProfileMs, latencies)
  }

  lemma ReportMeasures(l: Local, m: Envelope)
    ensures var o := LatencyReport(l, m);
            && (ReportAccepted(l.session, m) ==>
                  && Measures(l.session, o.local.session, m.latency.value.latencies)
                  && o.effect == Publish(Project(o.local.session)))
            && (!ReportAccepted(l.session, m) ==> o.local.session == l.session && o.effect == NoEffect)
  {
    if m.latency.Some? {
      NewMeasures(l.session, m.latency.value.latencies);
    }
  }

  lemma NewMeasures(s: Session, latencies: Latencies)
    ensures Measures(s, Measured(s, latencies), latencies)
  {
    ProfileRefreshes(s.(exchangeLatencies := latencies), latencies);
  }

  /** A latency report replaces what was measured, and refreshes the profile, of a registered session it names. */
  lemma MeasuresExactly(c: Config, l: Local, f: Frame)
    requires c.Valid() && OnFrame(c, l, f).stage == Reached
    requires f.body.Some? && f.body.value.action == "latency.test_result"
    ensures var o, m := OnFrame(c, l, f), f.body.value;
            && (ReportAccepted(l.session, m) ==>
                  && Measures(l.session, o.local.session, m.latency.value.latencies)
                  && o.effect == Publish(Project(o.local.session)))
            && (!ReportAccepted(l.session, m) ==> o.local.session == l.session && o.effect == NoEffect)
  {
    System.ScreenKeeps(c, l, f);
    ReportMeasures(Screen(c, l, f).0, f.body.value);
  }

  /** Only a heartbeat dates a session. */
  lemma OnlyHeartbeatsDate(c: Config, l: Local, f: Frame)
    requires c.Valid() && System.LocalInv(c, l)
    ensures var o := OnFrame(c, l, f);
            (o.stage == Reached && HeartbeatAccepted(c, l, f))
            || o.local.session.lastHeartbeatMs == l.session.lastHeartbeatMs
  {
    System.ScreenKeeps(c, l, f);
    var (screened, stage) := Screen(c, l, f);
    if stage == Reached {
      var m := f.body.value;
      ConnectionRuns.ActKeeps(c, screened, f, m);
      if m.action == "trader.heartbeat" {
        BeatsExactly(c, l, f);
      }
    }
  }

  // ---- Answers -------------------------------------------------------------------

  /** A span in seconds, rounded up. */
  predicate RoundedUp(seconds: int, span: int) {
    (seconds - 1) * 1_000_000_000 < span <= seconds * 1_000_000_000
  }

  /**
   A registration is acknowledged with the heartbeat timeout in seconds, and asked
   for latencies if it offers exchanges; an accepted heartbeat or report is
   acknowledged if it was a request; whatever else gets to the switch, unknown
   actions aside, gets one error and publishes nothing.
   */
  lemma AnswersExactly(c: Config, l: Local, f: Frame)
    requires c.Valid() && System.LocalInv(c, l) && OnFrame(c, l, f).stage == Reached && f.body.Some?
    requires f.body.value.action in {"trader.register", "trader.heartbeat", "latency.test_result"}
    ensures var o, m := OnFrame(c, l, f), f.body.value;
            var t := o.local.session;
            && (!o.effect.Publish? ==> |o.replies| == 1 && o.replies[0].ErrorReply?)
            && (o.effect.Publish? && m.action == "trader.register" ==>
                  && |o.replies| == (if t.effective == [] then 1 else 2)
                  && o.replies[0].RegisterAck? && RoundedUp(o.replies[0].timeoutSec, c.heartbeatTimeout)
                  && o.replies[0].traderId == t.traderId && o.replies[0].sessionId == t.sessionId
                  && (t.effective != [] ==> o.replies[1] == LatencyTest(t.effective)))
            && (o.effect.Publish? && m.action != "trader.register" && m.kind != "request" ==> o.replies == [])
            && (o.effect.Publish? && m.action == "trader.heartbeat" && m.kind == "request" ==>
                  o.replies == [HeartbeatAck(t.traderId, t.sessionId, f.outside.stampMs)])
            && (o.effect.Publish? && m.action == "latency.test_result" && m.kind == "request" ==>
                  o.replies == [LatencyAck(t.traderId, t.sessionId)])
  {
    System.ScreenKeeps(c, l, f);
    CeilRoundsUp(c.heartbeatTimeout);
    if f.body.value.action == "trader.heartbeat" {
      BeatsExactly(c, l, f);
    }
  }

  lemma CeilRoundsUp(span: int)
    requires span > 0
    ensures RoundedUp(SecondsCeil(span), span)
  {
  }

  // ---- Unknown actions ---------------------------------------------------------

  /**
   An unknown action ends the connection exactly when it is at least the maximum-th
   in a window, which is renewed once its length has passed.
   */
  lemma FloodsExactly(c: Config, l: Local, f: Frame)
    requires c.Valid() && OnFrame(c, l, f).stage == Reached
    requires f.body.Some?
             && f.body.value.action !in {"trader.register", "trader.heartbeat", "latency.test_result"}
    ensures var count := if f.now >= l.unknown.start + c.unknownActionWindow then 1 else l.unknown.count + 1;
            && (OnFrame(c, l, f).exit == Some(ActionFlood) <==> count >= c.maxUnknownActions)
            && OnFrame(c, l, f).local.session == l.session && OnFrame(c, l, f).effect == NoEffect
  {
    System.ScreenKeeps(c, l, f);
    ScreenKeepsWindow(c, l, f);
  }

  lemma ScreenKeepsWindow(c: Config, l: Local, f: Frame)
    ensures Screen(c, l, f).0.unknown == l.unknown
  {
  }
}
