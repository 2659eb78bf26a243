/**
 What a candidate's score is made of (internal/scheduler/scheduler.go): measured
 latencies and load for a trade task, loads and role for a monitor task, and a
 penalty for each required exchange that is used above the soft limit.
 */
module Scores {
  import opened Sequences
  import opened Selection
  import opened SelectionProperties
  import Latency

  /** A reported index, brought into the unit interval. */
  predicate InUnit(v: real, raw: real) {
    0.0 <= v <= 1.0 && (0.0 <= raw <= 1.0 ==> v == raw) && (raw < 0.0 ==> v == 0.0) && (raw > 1.0 ==> v == 1.0)
  }

  // ---- Before penalties ----------------------------------------------------------

  /** The names of the required exchanges, each once. */
  ghost predicate Names(names: seq<string>, required: seq<ExchangeRef>) {
    NoDuplicates(names) && forall n :: n in names <==> n != "" && exists ref :: ref in required && ref.name == n
  }

  lemma RequiredAreNamed(required: seq<ExchangeRef>)
    ensures Names(RequiredNames(required), required)
  {
    var all := seq(|required|, i requires 0 <= i < |required| => required[i].name);
    forall n ensures n in all <==> exists ref :: ref in required && ref.name == n {
      if n in all {
        var i :| 0 <= i < |all| && all[i] == n;
        assert required[i] in required;
      }
      if ref :| ref in required && ref.name == n {
        var i :| 0 <= i < |required| && required[i] == ref;
        assert all[i] == n;
      }
    }
  }

  /** The latency part of a trade score. */
  ghost predicate EstimateOf(s: Snapshot, names: seq<string>, estimate: real) {
    var measured := Latency.Measured(s.exchangeLatencies, names);
    && (names == [] ==> estimate == if s.latencyProfileMs > 0.0 then s.latencyProfileMs else 5000.0)
    && (names != [] && measured == {} ==> estimate == 5000.0 + |names| as real * 300.0)
    && (measured != {} ==>
          measured <= s.exchangeLatencies.Keys
          && Latency.IsProfile(s.exchangeLatencies, measured, |names| - |measured|, estimate))
  }

  /**
   A trade candidate scores its latency profile over the required exchanges, 300 for
   each that was not measured, and 1000 times the square of its load.
   */
  lemma TradeScore(p: Policy, nowUnix: int, s: Snapshot) returns (names: seq<string>, estimate: real, load: real)
    requires p.taskType == TradeTask && Base(p, nowUnix, s).Some?
    ensures Names(names, p.required) && EstimateOf(s, names, estimate) && InUnit(load, s.loadIndex)
    ensures Base(p, nowUnix, s).value.score == estimate + 1000.0 * (load * load)
  {
    names := RequiredNames(p.required);
    estimate := Latency.TaskEstimate(s.latencyProfileMs, s.exchangeLatencies, names);
    load := ClampUnit(s.loadIndex);
    RequiredAreNamed(p.required);
    TaskEstimates(s, names);
    TradeBase(p, nowUnix, s);
  }

  lemma TaskEstimates(s: Snapshot, names: seq<string>)
    requires NoDuplicates(names)
    ensures EstimateOf(s, names, Latency.TaskEstimate(s.latencyProfileMs, s.exchangeLatencies, names))
  {
    Latency.EstimateMeans(s.latencyProfileMs, s.exchangeLatencies, names);
  }

  lemma TradeBase(p: Policy, nowUnix: int, s: Snapshot)
    requires p.taskType == TradeTask && Base(p, nowUnix, s).Some?
    ensures var estimate := Latency.TaskEstimate(s.latencyProfileMs, s.exchangeLatencies, RequiredNames(p.required));
            var load := ClampUnit(s.loadIndex);
            Base(p, nowUnix, s).value.score == estimate + 1000.0 * (load * load)
  {
  }

  /**
   A monitor candidate scores 1000 times the square of its trade load, which the load
   stands in for where it is missing, 200 times the square of its load, and 100 or
   300 if it also trades or only trades.
   */
  lemma MonitorScore(p: Policy, nowUnix: int, s: Snapshot) returns (tradeLoad: real, load: real, role: real)
    requires p.taskType == MonitorTask && Base(p, nowUnix, s).Some?
    ensures InUnit(load, s.loadIndex)
    ensures if s.tradeLoadIndex > 0.0 then InUnit(tradeLoad, s.tradeLoadIndex) else tradeLoad == load
    ensures role == if s.role == "monitor" then 0.0 else if s.role == "trade" then 300.0 else 100.0
    ensures Base(p, nowUnix, s).value.score == 1000.0 * (tradeLoad * tradeLoad) + 200.0 * (load * load) + role
  {
    load := ClampUnit(s.loadIndex);
    tradeLoad := EffectiveTradeLoad(s.tradeLoadIndex, s.loadIndex);
    role := MonitorRolePenalty(NormalizeRole(s.role));
  }

  // ---- Penalties -----------------------------------------------------------------

  /** A share x of the way from the soft limit to full use costs x squared times the weight. */
  lemma PenaltyOfShare(l: Limits, share: real)
    requires l.Valid() && share >= 0.0
    ensures SoftPenalty(l, l.soft + share * (1.0 - l.soft)) == l.weight * (share * share)
  {
    var gap := 1.0 - l.soft;
    var norm := (share * gap) / gap;
    assert norm * gap == share * gap;
    assert (norm - share) * gap == 0.0;
    assert norm == share;
    assert l.weight * share * share == l.weight * (share * share);
    assert share * gap >= 0.0;
    if share == 0.0 {
      assert share * gap == 0.0;
    } else {
      assert share * gap > 0.0;
    }
  }

  /** What a required exchange costs; share: how far its use is from the soft limit to full. */
  ghost predicate Costs(l: Limits, view: ResourceView, dbId: int, ref: ExchangeRef, penalty: real) {
    if ref.id <= 0 then penalty == 0.0
    else
      && view(dbId, ref.id).Utilization?
      && exists util, share :: SharedUse(l, view(dbId, ref.id).value, util, share, penalty)
  }

  predicate SharedUse(l: Limits, raw: real, util: real, share: real, penalty: real) {
    && InUnit(util, raw) && util < l.hard
    && util == l.soft + share * (1.0 - l.soft)
    && penalty == if share > 0.0 then l.weight * (share * share) else 0.0
  }

  lemma OneCosts(l: Limits, view: ResourceView, dbId: int, ref: ExchangeRef)
    requires l.Valid() && AssessOne(l, view, dbId, ref).Admitted?
    ensures Costs(l, view, dbId, ref, AssessOne(l, view, dbId, ref).penalty)
  {
    if ref.id > 0 {
      var util := ClampUnit(view(dbId, ref.id).value);
      var share := ShareOf(l, util);
      if share > 0.0 {
        PenaltyOfShare(l, share);
      }
      assert SharedUse(l, view(dbId, ref.id).value, util, share, AssessOne(l, view, dbId, ref).penalty);
    }
  }

  lemma ShareOf(l: Limits, util: real) returns (share: real)
    requires l.Valid()
    ensures util == l.soft + share * (1.0 - l.soft)
    ensures share > 0.0 <==> util > l.soft
  {
    var gap := 1.0 - l.soft;
    share := (util - l.soft) / gap;
    assert share * gap == util - l.soft;
    assert share > 0.0 ==> share * gap > 0.0;
    assert share <= 0.0 ==> share * gap <= 0.0;
  }

  function Total(penalties: seq<real>): real {
    if penalties == [] then 0.0 else Total(penalties[..|penalties| - 1]) + penalties[|penalties| - 1]
  }

  /** A list of costs, one for each required exchange. */
  ghost predicate CostsOf(l: Limits, view: ResourceView, dbId: int, refs: seq<ExchangeRef>, costs: seq<real>) {
    |costs| == |refs| && forall i :: 0 <= i < |refs| ==> Costs(l, view, dbId, refs[i], costs[i])
  }

  lemma {:induction false} AssessCosts(l: Limits, view: ResourceView, dbId: int, refs: seq<ExchangeRef>)
    returns (costs: seq<real>)
    requires l.Valid() && Assess(l, view, dbId, refs).Admitted?
    ensures CostsOf(l, view, dbId, refs, costs) && Assess(l, view, dbId, refs).penalty == Total(costs)
  {
    if refs == [] {
      costs := [];
    } else {
      var n := |refs| - 1;
      var before := AssessCosts(l, view, dbId, refs[..n]);
      OneCosts(l, view, dbId, refs[n]);
      costs := before + [AssessOne(l, view, dbId, refs[n]).penalty];
      assert costs[..n] == before;
    }
  }

  /** The final score is the score before penalties and the cost of every required exchange. */
  lemma FinalIsBasePlusCosts(p: Policy, nowUnix: int, s: Snapshot) returns (costs: seq<real>)
    requires p.limits.Valid() && !Unconstrained(p) && Final(p, nowUnix, s).Some?
    ensures Base(p, nowUnix, s).Some?
    ensures CostsOf(p.limits, p.resources.value, s.traderDbId, p.required, costs)
    ensures Final(p, nowUnix, s).value.score == Base(p, nowUnix, s).value.score + Total(costs)
  {
    FinalIsAdmitted(p, nowUnix, s);
    AdmittedPenalty(p.limits, p.resources.value, s.traderDbId, p.required);
    FinalScore(p, nowUnix, s);
    costs := AssessCosts(p.limits, p.resources.value, s.traderDbId, p.required);
  }

  // ---- Rejections ----------------------------------------------------------------

  predicate Passes(l: Limits, view: ResourceView, dbId: int, ref: ExchangeRef) {
    ref.id <= 0 || (view(dbId, ref.id).Utilization? && (view(dbId, ref.id).value < l.hard))
  }

  /** A session is rejected for its first required exchange that fails, and for what is wrong with that one. */
  lemma {:induction false} FirstFailureIsReported(l: Limits, view: ResourceView, dbId: int, refs: seq<ExchangeRef>)
    requires l.Valid() && Assess(l, view, dbId, refs).Rejected?
    ensures exists i: nat :: FailsFirst(l, view, dbId, refs, i, Assess(l, view, dbId, refs).reason)
  {
    var n := |refs| - 1;
    var before, reason := Assess(l, view, dbId, refs[..n]), Assess(l, view, dbId, refs).reason;
    if before.Rejected? {
      FirstFailureIsReported(l, view, dbId, refs[..n]);
      var i: nat :| FailsFirst(l, view, dbId, refs[..n], i, before.reason);
      assert FailsFirst(l, view, dbId, refs, i, reason);
    } else {
      AdmittedPasses(l, view, dbId, refs[..n]);
      assert FailsFirst(l, view, dbId, refs, n, reason);
    }
  }

  /** The exchange at i is the first that does not pass, for this reason. */
  ghost predicate FailsFirst(l: Limits, view: ResourceView, dbId: int, refs: seq<ExchangeRef>, i: nat,
                             reason: Rejection) {
    && i < |refs| && !Passes(l, view, dbId, refs[i])
    && (forall j :: 0 <= j < i ==> Passes(l, view, dbId, refs[j]))
    && reason == match view(dbId, refs[i].id)
                 case LookupError => ResourceLookupError
                 case LookupMissing => MissingResource
                 case Utilization(_) => HardLimit
  }

  lemma {:induction false} AdmittedPasses(l: Limits, view: ResourceView, dbId: int, refs: seq<ExchangeRef>)
    requires l.Valid() && Assess(l, view, dbId, refs).Admitted?
    ensures forall j :: 0 <= j < |refs| ==> Passes(l, view, dbId, refs[j])
  {
    if refs != [] {
      AdmittedPasses(l, view, dbId, refs[..|refs| - 1]);
    }
  }
}
