/**
 A scheduler cycle taken apart (internal/scheduler/scheduler.go): the snapshots are
 read and a candidate is selected in one step; the Assign calls and the sleeps
 between them follow while connections go on. The engine is one goroutine, so
 nothing else runs a cycle meanwhile.
 */
module AssignmentRuns {
  import opened Sequences
  import P = Protocol
  import S = System
  import Selection
  import AssignmentDedup
  import Backoff
  import Engine

  /** selectedAt: the event that read the snapshots; slept: the sleeps of the cycle before this call. */
  datatype Call = Call(candidate: Selection.Candidate, nowUnix: int, selectedAt: nat, attempt: Attempt, slept: int)

  type Attempt = n: nat | n >= 1 witness 1

  /** The cycle in progress, at its latest call. */
  datatype Flight = Landed | Flying(input: Engine.CycleInput, call: Call, replies: seq<Engine.Reply>)

  datatype State = State(tick: nat, world: S.World, flight: Flight, calls: seq<Call>)

  const INITIAL: State := State(0, S.INITIAL, Landed, [])

  datatype Event =
    | Loop(e: S.Event)
    | Select(input: Engine.CycleInput)
    | Reply(reply: Engine.Reply)

  /** A cycle that gets as far as calling Assign. */
  ghost predicate Calls(ec: Engine.Config, s: Engine.State, input: Engine.CycleInput)
    requires ec.Valid()
  {
    && input.snapshots.Some? && Engine.Candidates(ec, input) != []
    && Engine.CycleKey(ec, input, Engine.Candidates(ec, input)[0]) !in Engine.Kept(ec, s, input)
  }

  /** The loop is left by a success, a permanent error, or the last attempt. */
  predicate Last(ec: Engine.Config, attempt: nat, reply: Engine.Reply) {
    reply.AssignOk? || !reply.retryable || attempt > ec.retryMax
  }

  function Answers(replies: seq<Engine.Reply>): nat -> Engine.Reply {
    n => if 1 <= n <= |replies| then replies[n - 1] else Engine.AssignOk
  }

  ghost function SleepAfter(ec: Engine.Config, attempt: Attempt): int
    requires ec.Valid()
  {
    Backoff.ClosedForm(ec.retryInitial, ec.retryMultiplier, ec.retryMaxDelay, attempt)
  }

  ghost function Again(ec: Engine.Config, call: Call): Call
    requires ec.Valid()
  {
    call.(attempt := call.attempt + 1, slept := call.slept + SleepAfter(ec, call.attempt))
  }

  ghost function Finished(ec: Engine.Config, w: S.World, input: Engine.CycleInput): S.World
    requires ec.Valid()
  {
    w.(engine := Engine.Cycle(ec, w.engine, input).0)
  }

  ghost function Selected(ec: Engine.Config, s: State, input: Engine.CycleInput): State
    requires ec.Valid()
  {
    if !s.flight.Landed? || !S.Enabled(s.world, S.Schedule(input)) then s
    else if !Calls(ec, s.world.engine, input) then s.(world := Finished(ec, s.world, input))
    else
      var call := Call(Engine.Candidates(ec, input)[0], AssignmentDedup.Unix(input.now), s.tick, 1, 0);
      s.(flight := Flying(input, call, []), calls := s.calls + [call])
  }

  ghost function Replied(ec: Engine.Config, s: State, reply: Engine.Reply): State
    requires ec.Valid()
  {
    if s.flight.Landed? then s
    else
      var replies := s.flight.replies + [reply];
      if Last(ec, s.flight.call.attempt, reply) then
        s.(world := Finished(ec, s.world, s.flight.input.(assign := Answers(replies))), flight := Landed)
      else
        var call := Again(ec, s.flight.call);
        s.(flight := Flying(s.flight.input, call, replies), calls := s.calls + [call])
  }

  ghost function Step(c: P.Config, ec: Engine.Config, s: State, e: Event): State
    requires c.Valid() && ec.Valid()
  {
    var t := match e
             case Loop(e) => if e.Schedule? then s else s.(world := S.Step(c, ec, s.world, e))
             case Select(input) => Selected(ec, s, input)
             case Reply(reply) => Replied(ec, s, reply);
    t.(tick := s.tick + 1)
  }

  ghost function Run(c: P.Config, ec: Engine.Config, events: seq<Event>): State
    requires c.Valid() && ec.Valid()
  {
    if events == [] then INITIAL else Step(c, ec, Run(c, ec, events[..|events| - 1]), events[|events| - 1])
  }

  // ---- Every call ------------------------------------------------------------

  /** A call's session was fit when the snapshots were read; since then the cycle has slept a bounded time. */
  ghost predicate WellFounded(c: P.Config, ec: Engine.Config, events: seq<Event>, call: Call)
    requires c.Valid() && ec.Valid()
  {
    && call.selectedAt < |events|
    && call.attempt <= ec.retryMax + 1
    && 0 <= call.slept <= (call.attempt - 1) * ec.retryMaxDelay
    && FitAt(ec, Run(c, ec, events[..call.selectedAt]).world, call)
  }

  predicate FitAt(ec: Engine.Config, w: S.World, call: Call) {
    && call.candidate.sessionId in w.conns
    && w.conns[call.candidate.sessionId].local.session.traderId == call.candidate.traderId
    && S.FitToAssign(ec, w.conns[call.candidate.sessionId], call.nowUnix)
  }

  lemma FounderStays(c: P.Config, ec: Engine.Config, events: seq<Event>, e: Event, call: Call)
    requires c.Valid() && ec.Valid() && WellFounded(c, ec, events, call)
    ensures WellFounded(c, ec, events + [e], call)
  {
    assert (events + [e])[..call.selectedAt] == events[..call.selectedAt];
  }

  lemma SleepBounds(ec: Engine.Config, attempt: Attempt)
    requires ec.Valid()
    ensures 0 <= SleepAfter(ec, attempt) <= ec.retryMaxDelay
  {
    Backoff.NonDecreasing(ec.retryInitial, ec.retryMultiplier, ec.retryMaxDelay, attempt, attempt);
  }

  lemma AgainIsFounded(c: P.Config, ec: Engine.Config, events: seq<Event>, call: Call)
    requires c.Valid() && ec.Valid() && WellFounded(c, ec, events, call) && call.attempt <= ec.retryMax
    ensures WellFounded(c, ec, events, Again(ec, call))
  {
    SleepBounds(ec, call.attempt);
    assert call.attempt * ec.retryMaxDelay == (call.attempt - 1) * ec.retryMaxDelay + ec.retryMaxDelay;
  }

  /** Between calls: every earlier reply asked for a retry. */
  ghost predicate FlightInv(c: P.Config, ec: Engine.Config, events: seq<Event>, s: State)
    requires c.Valid() && ec.Valid()
  {
    s.flight.Flying? ==>
      && WellFounded(c, ec, events, s.flight.call)
      && s.flight.call.attempt == |s.flight.replies| + 1
      && (forall i :: 0 <= i < |s.flight.replies| ==> s.flight.replies[i].AssignError? && s.flight.replies[i].retryable)
      && Calls(ec, s.world.engine, s.flight.input)
      && s.flight.call.candidate == Engine.Candidates(ec, s.flight.input)[0]
  }

  ghost predicate Inv(c: P.Config, ec: Engine.Config, events: seq<Event>, s: State)
    requires c.Valid() && ec.Valid()
  {
    && s.tick == |events| && S.WorldInv(c, s.world)
    && (forall call :: call in s.calls ==> WellFounded(c, ec, events, call))
    && FlightInv(c, ec, events, s)
  }

  lemma SelectIsFounded(c: P.Config, ec: Engine.Config, events: seq<Event>, input: Engine.CycleInput)
    requires c.Valid() && ec.Valid() && Inv(c, ec, events, Run(c, ec, events))
    requires S.Enabled(Run(c, ec, events).world, S.Schedule(input)) && Calls(ec, Run(c, ec, events).world.engine, input)
    ensures WellFounded(c, ec, events + [Select(input)],
                        Call(Engine.Candidates(ec, input)[0], AssignmentDedup.Unix(input.now), |events|, 1, 0))
  {
    var w := Run(c, ec, events).world;
    assert (events + [Select(input)])[..|events|] == events;
    Engine.DispatchReports(ec, w.engine, input, Engine.Candidates(ec, input)[0]);
    S.ChosenIsFit(c, ec, w, input);
  }

  lemma LoopKeepsEngine(c: P.Config, ec: Engine.Config, w: S.World, e: S.Event)
    requires c.Valid() && ec.Valid() && !e.Schedule?
    ensures S.Step(c, ec, w, e).engine == w.engine
  {
  }

  lemma StepKeeps(c: P.Config, ec: Engine.Config, events: seq<Event>, e: Event)
    requires c.Valid() && ec.Valid() && Inv(c, ec, events, Run(c, ec, events))
    ensures Inv(c, ec, events + [e], Step(c, ec, Run(c, ec, events), e))
  {
    var s := Run(c, ec, events);
    var t := Step(c, ec, s, e);
    forall call | call in s.calls ensures WellFounded(c, ec, events + [e], call) {
      FounderStays(c, ec, events, e, call);
    }
    if s.flight.Flying? {
      FounderStays(c, ec, events, e, s.flight.call);
    }
    match e
    case Loop(e) =>
      if !e.Schedule? {
        S.StepKeeps(c, ec, s.world, e);
        LoopKeepsEngine(c, ec, s.world, e);
      }
    case Select(input) =>
      if s.flight.Landed? && S.Enabled(s.world, S.Schedule(input)) && Calls(ec, s.world.engine, input) {
        SelectIsFounded(c, ec, events, input);
      }
    case Reply(reply) =>
      if s.flight.Flying? && !Last(ec, s.flight.call.attempt, reply) {
        AgainIsFounded(c, ec, events + [e], s.flight.call);
      }
  }

  lemma {:induction false} RunKeeps(c: P.Config, ec: Engine.Config, events: seq<Event>)
    requires c.Valid() && ec.Valid()
    ensures Inv(c, ec, events, Run(c, ec, events))
  {
    if events != [] {
      var before, e := events[..|events| - 1], events[|events| - 1];
      RunKeeps(c, ec, before);
      StepKeeps(c, ec, before, e);
      assert events == before + [e];
    }
  }

  /**
   Every Assign call of every run, retries included: its session was fit to assign
   when the cycle read the snapshots, and the cycle has slept at most
   retryMax * retryMaxDelay since, however the connections went on meanwhile.
   */
  lemma EveryCallWasFit(c: P.Config, ec: Engine.Config, events: seq<Event>, i: nat)
    requires c.Valid() && ec.Valid() && i < |Run(c, ec, events).calls|
    ensures var call := Run(c, ec, events).calls[i];
            && call.selectedAt < |events|
            && FitAt(ec, Run(c, ec, events[..call.selectedAt]).world, call)
            && call.attempt <= ec.retryMax + 1
            && 0 <= call.slept <= ec.retryMax * ec.retryMaxDelay
  {
    RunKeeps(c, ec, events);
    var call := Run(c, ec, events).calls[i];
    assert WellFounded(c, ec, events, call);
    SleptInAll(ec, call);
  }

  lemma SleptInAll(ec: Engine.Config, call: Call)
    requires ec.Valid() && call.attempt <= ec.retryMax + 1 && call.slept <= (call.attempt - 1) * ec.retryMaxDelay
    ensures call.slept <= ec.retryMax * ec.retryMaxDelay
  {
    Engine.ProductMonotone(call.attempt - 1, ec.retryMax, ec.retryMaxDelay);
  }

  /** A cycle that lands has done what one undivided cycle with the same replies does. */
  lemma LandsAsOneCycle(c: P.Config, ec: Engine.Config, events: seq<Event>, reply: Engine.Reply)
    requires c.Valid() && ec.Valid() && Run(c, ec, events).flight.Flying?
    requires Last(ec, Run(c, ec, events).flight.call.attempt, reply)
    ensures var s := Run(c, ec, events);
            var input := s.flight.input.(assign := Answers(s.flight.replies + [reply]));
            var (engine, report) := Engine.Cycle(ec, s.world.engine, input);
            && Step(c, ec, s, Reply(reply)).world == s.world.(engine := engine)
            && report.Cycled? && report.selected == Some(s.flight.call.candidate)
               && report.calls == s.flight.call.attempt
            && report.outcome == Engine.ResultOf(reply)
  {
    RunKeeps(c, ec, events);
    var s := Run(c, ec, events);
    var replies := s.flight.replies + [reply];
    var input := s.flight.input.(assign := Answers(replies));
    StopsAt(ec, replies, 1);
    assert Engine.Candidates(ec, input) == Engine.Candidates(ec, s.flight.input);
    Engine.DispatchReports(ec, s.world.engine, input, s.flight.call.candidate);
  }

  /** The retry loop makes exactly the calls that were answered. */
  lemma {:induction false} StopsAt(ec: Engine.Config, replies: seq<Engine.Reply>, attempt: nat)
    requires ec.Valid() && 1 <= attempt <= |replies| <= ec.retryMax + 1
    requires forall i :: 0 <= i < |replies| - 1 ==> replies[i].AssignError? && replies[i].retryable
    requires Last(ec, |replies|, replies[|replies| - 1])
    ensures Engine.LastCall(Answers(replies), ec.retryMax + 1, attempt) == |replies|
    decreases |replies| - attempt
  {
    if attempt < |replies| {
      StopsAt(ec, replies, attempt + 1);
    }
  }
}
