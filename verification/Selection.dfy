/**
 Candidate selection (internal/scheduler/scheduler.go): filter and score the
 session snapshots, sort, apply resource limits and soft penalties, sort again.
 The functions say which list is built; the methods build it with the source's
 loops; SelectionProperties.dfy proves what the list means.
 */
module Selection {
  import opened Sequences
  import opened StableSort
  import opened Text
  import Latency

  const SECOND: int := 1_000_000_000

  datatype SessionState = Connected | Registered | Active | TimedOut | Disconnected

  /** The runtime view of one trader session that the handler publishes. */
  datatype Snapshot = Snapshot(
    traderId: string,
    traderDbId: int,
    traderStatus: string,
    sessionId: string,
    state: SessionState,
    registeredAtUnix: int,
    lastHeartbeatUnix: int,
    timedOutAtUnix: int,
    role: string,
    capabilities: seq<string>,
    effectiveExchanges: seq<string>,
    loadIndex: real,
    tradeLoadIndex: real,
    latencyProfileMs: real,
    exchangeLatencies: map<string, real>)

  datatype Candidate = Candidate(traderId: string, sessionId: string, lastHeartbeatUnix: int, score: real)

  datatype TaskType = TradeTask | MonitorTask

  datatype ExchangeRef = ExchangeRef(id: int, name: string)

  datatype Lookup = LookupError | LookupMissing | Utilization(value: real)

  /** Utilisation of (trader database id, exchange id) as one cycle sees it. */
  type ResourceView = (int, int) -> Lookup

  datatype Limits = Limits(hard: real, soft: real, weight: real) {
    ghost predicate Valid() {
      0.0 < soft < hard < 1.0 && weight > 0.0
    }
  }

  /** NewEngine's normalisation of the three configured limits. */
  function NormalizeLimits(hard: real, soft: real, weight: real): (l: Limits)
    ensures l.Valid()
    ensures 0.0 < soft < hard < 1.0 && weight > 0.0 ==> l == Limits(hard, soft, weight)
  {
    var h := if hard <= 0.0 || hard >= 1.0 then 0.98 else hard;
    var s0 := if soft <= 0.0 || soft >= 1.0 then 0.75 else soft;
    var s := if s0 >= h then h * 0.8 else s0;
    Limits(h, s, if weight <= 0.0 then 600.0 else weight)
  }

  datatype Policy = Policy(
    taskType: TaskType,
    healthyWindow: int,
    limits: Limits,
    resources: Option<ResourceView>,
    required: seq<ExchangeRef>)

  function ClampUnit(v: real): real {
    if v < 0.0 then 0.0 else if v > 1.0 then 1.0 else v
  }

  function NormalizeRole(role: string): string {
    if role == "monitor" || role == "trade" || role == "both" then role else "both"
  }

  function MonitorRolePenalty(role: string): real {
    if role == "monitor" then 0.0 else if role == "trade" then 300.0 else 100.0
  }

  function ScoreTrade(latencyProfileMs: real, load: real): real {
    latencyProfileMs + 1000.0 * (load * load)
  }

  function ScoreMonitor(tradeLoad: real, load: real, rolePenalty: real): real {
    1000.0 * (tradeLoad * tradeLoad) + 200.0 * (load * load) + rolePenalty
  }

  /** A zero trade load falls back to the general load. */
  function EffectiveTradeLoad(tradeLoadIndex: real, loadIndex: real): real {
    var load, tradeLoad := ClampUnit(loadIndex), ClampUnit(tradeLoadIndex);
    if tradeLoad == 0.0 && load > 0.0 then load else tradeLoad
  }

  function WindowSeconds(healthyWindow: int): int {
    if healthyWindow <= 0 then 15 else healthyWindow / SECOND
  }

  predicate Eligible(task: TaskType, healthyWindow: int, nowUnix: int, s: Snapshot) {
    && s.traderId != "" && s.sessionId != ""
    && (s.traderStatus == "" || s.traderStatus == "active")
    && s.state == Active
    && s.lastHeartbeatUnix > 0
    && nowUnix - s.lastHeartbeatUnix <= WindowSeconds(healthyWindow)
    && !(task == TradeTask && NormalizeRole(s.role) == "monitor")
  }

  function RequiredNames(required: seq<ExchangeRef>): seq<string> {
    Latency.Distinct(seq(|required|, i requires 0 <= i < |required| => required[i].name))
  }

  function Score(task: TaskType, names: seq<string>, s: Snapshot): real {
    match task
    case MonitorTask =>
      ScoreMonitor(EffectiveTradeLoad(s.tradeLoadIndex, s.loadIndex), ClampUnit(s.loadIndex),
                   MonitorRolePenalty(NormalizeRole(s.role)))
    case TradeTask =>
      ScoreTrade(Latency.TaskEstimate(s.latencyProfileMs, s.exchangeLatencies, names), ClampUnit(s.loadIndex))
  }

  function ToCandidate(task: TaskType, healthyWindow: int, nowUnix: int, names: seq<string>,
                       s: Snapshot): Option<Candidate> {
    if Eligible(task, healthyWindow, nowUnix, s)
    then Some(Candidate(s.traderId, s.sessionId, s.lastHeartbeatUnix, Score(task, names, s)))
    else None
  }

  /** Lower score, then newer heartbeat, then smaller trader id. */
  predicate RanksBefore(a: Candidate, b: Candidate) {
    if a.score != b.score then a.score < b.score
    else if a.lastHeartbeatUnix != b.lastHeartbeatUnix then a.lastHeartbeatUnix > b.lastHeartbeatUnix
    else StringLess(a.traderId, b.traderId)
  }

  function Shortlist(p: Policy, nowUnix: int, snapshots: seq<Snapshot>): seq<Candidate> {
    var names := RequiredNames(p.required);
    FilterMap(s => ToCandidate(p.taskType, p.healthyWindow, nowUnix, names, s), snapshots)
  }

  function Selected(p: Policy, nowUnix: int, snapshots: seq<Snapshot>): seq<Candidate> {
    Sort(RanksBefore, Shortlist(p, nowUnix, snapshots))
  }

  datatype Rejection = MissingTraderDbId | ResourceLookupError | MissingResource | HardLimit

  datatype Verdict = Rejected(reason: Rejection) | Admitted(penalty: real)

  function SoftPenalty(l: Limits, util: real): real
    requires l.Valid()
  {
    if util > l.soft then
      var norm := (util - l.soft) / (1.0 - l.soft);
      l.weight * norm * norm
    else 0.0
  }

  function AssessOne(l: Limits, view: ResourceView, dbId: int, ref: ExchangeRef): Verdict
    requires l.Valid()
  {
    if ref.id <= 0 then Admitted(0.0)
    else
      match view(dbId, ref.id)
      case LookupError => Rejected(ResourceLookupError)
      case LookupMissing => Rejected(MissingResource)
      case Utilization(raw) =>
        var util := ClampUnit(raw);
        if util >= l.hard then Rejected(HardLimit) else Admitted(SoftPenalty(l, util))
  }

  /** The inner loop: the first rejection wins, penalties add up. */
  function Assess(l: Limits, view: ResourceView, dbId: int, refs: seq<ExchangeRef>): Verdict
    requires l.Valid()
  {
    if refs == [] then Admitted(0.0)
    else
      var before := Assess(l, view, dbId, refs[..|refs| - 1]);
      if before.Rejected? then before
      else
        match AssessOne(l, view, dbId, refs[|refs| - 1])
        case Rejected(r) => Rejected(r)
        case Admitted(extra) => Admitted(before.penalty + extra)
  }

  function AssessSession(l: Limits, view: ResourceView, dbId: int, refs: seq<ExchangeRef>): Verdict
    requires l.Valid()
  {
    if dbId <= 0 then Rejected(MissingTraderDbId) else Assess(l, view, dbId, refs)
  }

  /** bySession: the last snapshot with an id wins. */
  function BySession(snapshots: seq<Snapshot>): map<string, Snapshot> {
    if snapshots == [] then map[]
    else BySession(snapshots[..|snapshots| - 1])[snapshots[|snapshots| - 1].sessionId := snapshots[|snapshots| - 1]]
  }

  function Penalized(c: Candidate, penalty: real): Candidate {
    if penalty > 0.0 then c.(score := c.score + penalty) else c
  }

  function Survivor(p: Policy, view: ResourceView, bySession: map<string, Snapshot>, c: Candidate): Option<Candidate>
    requires p.limits.Valid()
  {
    if c.sessionId !in bySession then None
    else
      match AssessSession(p.limits, view, bySession[c.sessionId].traderDbId, p.required)
      case Rejected(_) => None
      case Admitted(penalty) => Some(Penalized(c, penalty))
  }

  function RejectionOf(p: Policy, view: ResourceView, bySession: map<string, Snapshot>, c: Candidate): Option<Rejection>
    requires p.limits.Valid()
  {
    if c.sessionId !in bySession then None
    else
      match AssessSession(p.limits, view, bySession[c.sessionId].traderDbId, p.required)
      case Rejected(r) => Some(r)
      case Admitted(_) => None
  }

  predicate Unconstrained(p: Policy) {
    p.resources.None? || p.required == []
  }

  function Constrained(p: Policy, candidates: seq<Candidate>, snapshots: seq<Snapshot>): seq<Candidate>
    requires p.limits.Valid()
  {
    if candidates == [] || Unconstrained(p) then candidates
    else
      var bySession := BySession(snapshots);
      Sort(RanksBefore, FilterMap(c => Survivor(p, p.resources.value, bySession, c), candidates))
  }

  /** What a cycle chooses from. */
  function Pipeline(p: Policy, nowUnix: int, snapshots: seq<Snapshot>): seq<Candidate>
    requires p.limits.Valid()
  {
    Constrained(p, Selected(p, nowUnix, snapshots), snapshots)
  }

  method SelectCandidates(p: Policy, nowUnix: int, snapshots: seq<Snapshot>) returns (result: seq<Candidate>)
    ensures result == Selected(p, nowUnix, snapshots)
  {
    var names := RequiredNames(p.required);
    ghost var f := s => ToCandidate(p.taskType, p.healthyWindow, nowUnix, names, s);
    var working: seq<Candidate> := [];
    for i := 0 to |snapshots|
      invariant working == FilterMap(f, snapshots[..i])
    {
      var s := snapshots[i];
      assert snapshots[..i + 1] == snapshots[..i] + [s];
      FilterMapAppend(f, snapshots[..i], s);
      if s.traderId == "" || s.sessionId == "" {
        continue;
      }
      if s.traderStatus == "pending" || s.traderStatus == "suspended" || s.traderStatus == "decommissioned" {
        continue;
      }
      if s.traderStatus != "" && s.traderStatus != "active" {
        continue;
      }
      if s.state != Active {
        continue;
      }
      if s.lastHeartbeatUnix <= 0 {
        continue;
      }
      if nowUnix - s.lastHeartbeatUnix > WindowSeconds(p.healthyWindow) {
        continue;
      }
      var role := NormalizeRole(s.role);
      if p.taskType == TradeTask && role == "monitor" {
        continue;
      }
      var load := ClampUnit(s.loadIndex);
      var tradeLoad := ClampUnit(s.tradeLoadIndex);
      if tradeLoad == 0.0 && load > 0.0 {
        tradeLoad := load;
      }
      var score: real;
      if p.taskType == MonitorTask {
        score := ScoreMonitor(tradeLoad, load, MonitorRolePenalty(role));
      } else {
        var estimate := Latency.EstimateForTask(s.latencyProfileMs, s.exchangeLatencies, names);
        score := ScoreTrade(estimate, load);
      }
      working := working + [Candidate(s.traderId, s.sessionId, s.lastHeartbeatUnix, score)];
    }
    assert snapshots[..|snapshots|] == snapshots;
    result := SortCandidates(working);
  }

  method SortCandidates(items: seq<Candidate>) returns (result: seq<Candidate>)
    ensures result == Sort(RanksBefore, items)
  {
    var a := new Candidate[|items|](i requires 0 <= i < |items| => items[i]);
    assert a[..] == items;
    SortInPlace(a, RanksBefore);
    result := a[..];
  }

  method ApplyResourceConstraints(p: Policy, candidates: seq<Candidate>, snapshots: seq<Snapshot>)
    returns (result: seq<Candidate>, rejections: seq<Rejection>)
    requires p.limits.Valid()
    ensures result == Constrained(p, candidates, snapshots)
    ensures rejections == if Unconstrained(p) then []
                          else FilterMap(c => RejectionOf(p, p.resources.value, BySession(snapshots), c), candidates)
  {
    if |candidates| == 0 || p.resources.None? || |p.required| == 0 {
      return candidates, [];
    }
    var view := p.resources.value;
    var bySession: map<string, Snapshot> := map[];
    for i := 0 to |snapshots|
      invariant bySession == BySession(snapshots[..i])
    {
      assert snapshots[..i + 1][..i] == snapshots[..i];
      bySession := bySession[snapshots[i].sessionId := snapshots[i]];
    }
    assert snapshots[..|snapshots|] == snapshots;
    result, rejections := KeepSurvivors(p, view, bySession, candidates);
    result := SortCandidates(result);
  }

  method KeepSurvivors(p: Policy, view: ResourceView, bySession: map<string, Snapshot>, candidates: seq<Candidate>)
    returns (result: seq<Candidate>, rejections: seq<Rejection>)
    requires p.limits.Valid()
    ensures result == FilterMap(c => Survivor(p, view, bySession, c), candidates)
    ensures rejections == FilterMap(c => RejectionOf(p, view, bySession, c), candidates)
  {
    ghost var survive := c => Survivor(p, view, bySession, c);
    ghost var reject := c => RejectionOf(p, view, bySession, c);
    result := [];
    rejections := [];
    for i := 0 to |candidates|
      invariant result == FilterMap(survive, candidates[..i])
      invariant rejections == FilterMap(reject, candidates[..i])
    {
      assert candidates[..i + 1] == candidates[..i] + [candidates[i]];
      FilterMapAppend(survive, candidates[..i], candidates[i]);
      FilterMapAppend(reject, candidates[..i], candidates[i]);
      var kept, reason := AssessCandidate(p, view, bySession, candidates[i]);
      if reason.Some? {
        rejections := rejections + [reason.value];
      }
      if kept.Some? {
        result := result + [kept.value];
      }
    }
    assert candidates[..|candidates|] == candidates;
  }

  /** One iteration of the candidate loop, with its early continues. */
  method AssessCandidate(p: Policy, view: ResourceView, bySession: map<string, Snapshot>, candidate: Candidate)
    returns (kept: Option<Candidate>, reason: Option<Rejection>)
    requires p.limits.Valid()
    ensures kept == Survivor(p, view, bySession, candidate)
    ensures reason == RejectionOf(p, view, bySession, candidate)
  {
    if candidate.sessionId !in bySession {
      return None, None;
    }
    var snap := bySession[candidate.sessionId];
    if snap.traderDbId <= 0 {
      return None, Some(MissingTraderDbId);
    }
    var rejected, softPenalty := AssessRequired(p.limits, view, snap.traderDbId, p.required);
    if rejected.Some? {
      return None, rejected;
    }
    if softPenalty > 0.0 {
      return Some(candidate.(score := candidate.score + softPenalty)), None;
    }
    return Some(candidate), None;
  }

  method AssessRequired(l: Limits, view: ResourceView, dbId: int, required: seq<ExchangeRef>)
    returns (rejected: Option<Rejection>, softPenalty: real)
    requires l.Valid()
    ensures Assess(l, view, dbId, required) ==
            if rejected.Some? then Rejected(rejected.value) else Admitted(softPenalty)
  {
    softPenalty := 0.0;
    rejected := None;
    for j := 0 to |required|
      invariant rejected.None? && Assess(l, view, dbId, required[..j]) == Admitted(softPenalty)
    {
      var ref := required[j];
      assert required[..j + 1][..j] == required[..j];
      ghost var upTo := Assess(l, view, dbId, required[..j + 1]);
      if ref.id <= 0 {
        continue;
      }
      match view(dbId, ref.id)
      case LookupError =>
        FirstRejectionWins(l, view, dbId, required, j + 1);
        return Some(ResourceLookupError), softPenalty;
      case LookupMissing =>
        FirstRejectionWins(l, view, dbId, required, j + 1);
        return Some(MissingResource), softPenalty;
      case Utilization(raw) =>
        var util := ClampUnit(raw);
        if util >= l.hard {
          FirstRejectionWins(l, view, dbId, required, j + 1);
          return Some(HardLimit), softPenalty;
        }
        if util > l.soft {
          var norm := (util - l.soft) / (1.0 - l.soft);
          softPenalty := softPenalty + l.weight * norm * norm;
        }
    }
    assert required[..|required|] == required;
  }

  /** Once a prefix is rejected, later exchanges change nothing. */
  lemma {:induction false} FirstRejectionWins(l: Limits, view: ResourceView, dbId: int, refs: seq<ExchangeRef>, k: nat)
    requires l.Valid() && k <= |refs|
    requires Assess(l, view, dbId, refs[..k]).Rejected?
    ensures Assess(l, view, dbId, refs) == Assess(l, view, dbId, refs[..k])
  {
    if k == |refs| {
      assert refs[..k] == refs;
    } else {
      var n := |refs| - 1;
      assert refs[..n][..k] == refs[..k];
      FirstRejectionWins(l, view, dbId, refs[..n], k);
    }
  }
}
