/** Whole runs of scheduler cycles: exactly-once assignment, the dead-letter log, conservation of outcomes. */
module EngineRuns {
  import opened Sequences
  import opened AssignmentDedup
  import opened DeadLetters
  import opened Runtime
  import opened Engine
  import opened SelectionProperties
  import Backoff

  const INITIAL: State := State(map[], [], 0, map[])

  function RunCycles(c: Config, inputs: seq<CycleInput>): (r: (State, seq<Report>))
    requires c.Valid()
    ensures |r.1| == |inputs|
  {
    if inputs == [] then (INITIAL, [])
    else
      var n := |inputs| - 1;
      var before := RunCycles(c, inputs[..n]);
      var after := Cycle(c, before.0, inputs[n]);
      (after.0, before.1 + [after.1])
  }

  // ---- The cycles as a run of the deduplication ledger -----------------

  /** The assignment a cycle would attempt, if it has a candidate. */
  function AttemptOf(c: Config, input: CycleInput): Option<Attempt>
    requires c.Valid()
  {
    if input.snapshots.None? || Candidates(c, input) == [] then None
    else Some(Attempt(TaskId(c, input.identity), Candidates(c, input)[0].traderId, input.now,
                      input.assign(LastCall(input.assign, c.retryMax + 1, 1)).AssignOk?))
  }

  function VerdictOf(r: Report): Option<AssignmentDedup.Verdict> {
    if r.Idle? || r.outcome == NoCandidates then None
    else if r.outcome == Dedup then Some(Duplicate)
    else if r.outcome == Success then Some(Assigned)
    else Some(Failed)
  }

  function Attempts(c: Config, inputs: seq<CycleInput>): seq<Attempt>
    requires c.Valid()
  {
    FilterMap(i => AttemptOf(c, i), inputs)
  }

  /** What one cycle does to each part of the state, in terms of its report. */
  lemma CycleEffect(c: Config, s: State, input: CycleInput)
    requires c.Valid()
    ensures var (t, r) := Cycle(c, s, input);
            && (match AttemptOf(c, input)
                case None => t.ledger == s.ledger && VerdictOf(r).None?
                case Some(a) =>
                  VerdictOf(r).Some? && (t.ledger, VerdictOf(r).value) == AssignmentDedup.Step(ClockOf(c), s.ledger, a))
            && t.deadLetters == (if LetterOf(r).Some? then LastOf(s.deadLetters + [LetterOf(r).value], c.dlqMax)
                                 else s.deadLetters)
            && (LetterOf(r).Some? <==> r.Cycled? && IsFailure(r.outcome))
            && (if r.Cycled? then t.cycles == s.cycles + 1 && t.outcomes == Bump(s.outcomes, Label(r.outcome))
                else t.cycles == s.cycles && t.outcomes == s.outcomes)
  {
  }

  lemma LastReport(c: Config, inputs: seq<CycleInput>)
    requires c.Valid() && inputs != []
    ensures var n := |inputs| - 1;
            var (s, reports) := RunCycles(c, inputs[..n]);
            RunCycles(c, inputs) == (Cycle(c, s, inputs[n]).0, reports + [Cycle(c, s, inputs[n]).1])
  {
  }

  lemma LedgerAppend(clock: Clock, attempts: seq<Attempt>, a: Attempt)
    requires clock.epochLength > 0
    ensures var before := AssignmentDedup.Run(clock, attempts);
            var after := AssignmentDedup.Step(clock, before.0, a);
            AssignmentDedup.Run(clock, attempts + [a]) == (after.0, before.1 + [after.1])
  {
    assert (attempts + [a])[..|attempts|] == attempts;
  }

  /** The ledger and the verdicts are those of a run over the attempts. */
  ghost predicate Follows(clock: Clock, ledger: map<string, int>, reports: seq<Report>, attempts: seq<Attempt>)
    requires clock.epochLength > 0
  {
    AssignmentDedup.Run(clock, attempts) == (ledger, FilterMap(VerdictOf, reports))
  }

  lemma FollowsStep(clock: Clock, s: State, reports: seq<Report>, attempts: seq<Attempt>, next: Option<Attempt>,
                    t: State, r: Report)
    requires clock.epochLength > 0 && Follows(clock, s.ledger, reports, attempts)
    requires match next
             case None => t.ledger == s.ledger && VerdictOf(r).None?
             case Some(a) =>
               VerdictOf(r).Some? && (t.ledger, VerdictOf(r).value) == AssignmentDedup.Step(clock, s.ledger, a)
    ensures Follows(clock, t.ledger, reports + [r], attempts + if next.Some? then [next.value] else [])
  {
    FilterMapAppend(VerdictOf, reports, r);
    if next.Some? {
      LedgerAppend(clock, attempts, next.value);
    } else {
      assert attempts + [] == attempts;
    }
  }

  /** Cycles with a candidate are exactly the steps of the ledger's run. */
  lemma {:induction false} CyclesFollowLedger(c: Config, inputs: seq<CycleInput>)
    requires c.Valid()
    ensures Follows(ClockOf(c), RunCycles(c, inputs).0.ledger, RunCycles(c, inputs).1, Attempts(c, inputs))
  {
    if inputs != [] {
      var n := |inputs| - 1;
      var before, input := inputs[..n], inputs[n];
      assert inputs == before + [input];
      CyclesFollowLedger(c, before);
      LastReport(c, inputs);
      var (s, reports) := RunCycles(c, before);
      CycleEffect(c, s, input);
      FilterMapAppend(i => AttemptOf(c, i), before, input);
      var (t, r) := Cycle(c, s, input);
      FollowsStep(ClockOf(c), s, reports, Attempts(c, before), AttemptOf(c, input), t, r);
    }
  }

  ghost predicate ClockAdvances(inputs: seq<CycleInput>) {
    forall i, j :: 0 <= i < j < |inputs| ==> inputs[i].now <= inputs[j].now
  }

  /** The trader ids that cycles can choose from. */
  function TraderIds(inputs: seq<CycleInput>): set<string> {
    if inputs == [] then {}
    else TraderIds(inputs[..|inputs| - 1]) + TraderIdsOf(inputs[|inputs| - 1])
  }

  function TraderIdsOf(input: CycleInput): set<string> {
    if input.snapshots.None? then {}
    else set s | s in input.snapshots.value && s.traderId != "" :: s.traderId
  }

  ghost predicate DistinctSnapshots(inputs: seq<CycleInput>) {
    forall i :: 0 <= i < |inputs| && inputs[i].snapshots.Some? ==> DistinctSessions(inputs[i].snapshots.value)
  }

  lemma HeadFromSnapshot(c: Config, input: CycleInput)
    requires c.Valid() && input.snapshots.Some? && DistinctSessions(input.snapshots.value)
    requires Candidates(c, input) != []
    ensures exists s :: s in input.snapshots.value && s.traderId == Candidates(c, input)[0].traderId
                        && s.traderId != "" && s.sessionId == Candidates(c, input)[0].sessionId
  {
    var p := PolicyOf(c, input);
    HeadIsLeast(p, Unix(input.now), input.snapshots.value);
    var s :| s in input.snapshots.value && Final(p, Unix(input.now), s) == Some(Candidates(c, input)[0]);
    FinalKeepsIdentity(p, Unix(input.now), s);
  }

  lemma AttemptNamed(c: Config, input: CycleInput)
    requires c.Valid() && AttemptOf(c, input).Some? && DistinctSessions(input.snapshots.value)
    ensures AttemptOf(c, input).value.now == input.now && AttemptOf(c, input).value.trader in TraderIdsOf(input)
  {
    HeadFromSnapshot(c, input);
  }

  lemma OrderlyAppend(attempts: seq<Attempt>, a: Attempt, ids: set<string>)
    requires Ordered(attempts) && TradersOf(attempts) <= ids && a.trader in ids
    requires forall b :: b in attempts ==> b.now <= a.now
    ensures Ordered(attempts + [a]) && TradersOf(attempts + [a]) <= ids
  {
    assert TradersOf(attempts + [a]) == TradersOf(attempts) + {a.trader};
  }

  lemma {:induction false} AttemptsOrderly(c: Config, inputs: seq<CycleInput>)
    requires c.Valid() && ClockAdvances(inputs) && DistinctSnapshots(inputs)
    ensures Ordered(Attempts(c, inputs)) && TradersOf(Attempts(c, inputs)) <= TraderIds(inputs)
    ensures inputs != [] ==> forall a :: a in Attempts(c, inputs) ==> a.now <= inputs[|inputs| - 1].now
  {
    if inputs != [] {
      var n := |inputs| - 1;
      var before, input := inputs[..n], inputs[n];
      AttemptsOrderly(c, before);
      assert inputs == before + [input];
      FilterMapAppend(i => AttemptOf(c, i), before, input);
      assert before != [] ==> before[n - 1].now <= input.now;
      if AttemptOf(c, input).Some? {
        AttemptNamed(c, input);
        OrderlyAppend(Attempts(c, before), AttemptOf(c, input).value, TraderIds(inputs));
      }
    }
  }

  /**
   Over any run of cycles with a window that fits and unambiguous trader ids: a cycle with a candidate
   reports a duplicate exactly when its (task, trader, epoch) already succeeded,
   and no triple is assigned twice.
   */
  lemma AssignedAtMostOnce(c: Config, inputs: seq<CycleInput>)
    requires c.Valid() && ClockAdvances(inputs) && DistinctSnapshots(inputs)
    requires Unambiguous(TraderIds(inputs)) && WindowFits(ClockOf(c))
    ensures var attempts, verdicts := Attempts(c, inputs), FilterMap(VerdictOf, RunCycles(c, inputs).1);
            && |verdicts| == |attempts| && verdicts == Verdicts(ClockOf(c), attempts)
            && (forall i :: 0 <= i < |attempts| ==>
                 (verdicts[i] == Duplicate <==>
                  exists j :: 0 <= j < i && verdicts[j] == Assigned
                    && SameTriple(ClockOf(c), attempts[j], attempts[i])))
            && NeverTwice(ClockOf(c), attempts)
  {
    CyclesFollowLedger(c, inputs);
    AttemptsOrderly(c, inputs);
    WindowFitsExactly(ClockOf(c));
    var attempts := Attempts(c, inputs);
    forall i | 0 <= i < |attempts|
      ensures Verdicts(ClockOf(c), attempts)[i] == Duplicate <==>
              exists j :: 0 <= j < i && Verdicts(ClockOf(c), attempts)[j] == Assigned
                          && SameTriple(ClockOf(c), attempts[j], attempts[i])
    {
      DuplicateExactly(ClockOf(c), attempts, i);
    }
    CoveredNeverTwice(ClockOf(c), attempts);
  }

  // ---- Dead letters --------------------------------------------------------

  function LetterOf(r: Report): Option<DeadLetter> {
    if r.Cycled? then r.letter else None
  }

  predicate IsFailure(o: Outcome) {
    o == RetryExhausted || o == NonRetryable
  }

  /** The queue is the tail of the complete failure log, which has one entry per failed cycle and no other. */
  lemma {:induction false} QueueIsTailOfLog(c: Config, inputs: seq<CycleInput>)
    requires c.Valid()
    ensures var (s, reports) := RunCycles(c, inputs);
            && s.deadLetters == LastOf(FilterMap(LetterOf, reports), c.dlqMax)
            && |s.deadLetters| == Backoff.Min(|FilterMap(LetterOf, reports)|, c.dlqMax)
            && (forall i :: 0 <= i < |reports| ==>
                 (LetterOf(reports[i]).Some? <==> reports[i].Cycled? && IsFailure(reports[i].outcome)))
  {
    if inputs != [] {
      var n := |inputs| - 1;
      QueueIsTailOfLog(c, inputs[..n]);
      LastReport(c, inputs);
      var (s, reports) := RunCycles(c, inputs[..n]);
      CycleEffect(c, s, inputs[n]);
      var report := Cycle(c, s, inputs[n]).1;
      FilterMapAppend(LetterOf, reports, report);
      if LetterOf(report).Some? {
        LastOfAppend(FilterMap(LetterOf, reports), c.dlqMax, LetterOf(report).value);
      }
    }
  }

  // ---- Conservation --------------------------------------------------------

  function Tally(reports: seq<Report>, o: Outcome): nat {
    if reports == [] then 0
    else
      var last := reports[|reports| - 1];
      Tally(reports[..|reports| - 1], o) + if last.Cycled? && last.outcome == o then 1 else 0
  }

  function Cycled(reports: seq<Report>): nat {
    if reports == [] then 0
    else Cycled(reports[..|reports| - 1]) + if reports[|reports| - 1].Cycled? then 1 else 0
  }

  lemma LabelsDiffer(o: Outcome, p: Outcome)
    requires Label(o) == Label(p)
    ensures o == p
  {
    assert |Label(Success)| == 7 && |Label(NoCandidates)| == 13 && |Label(Dedup)| == 5;
    assert |Label(RetryExhausted)| == 22 && |Label(NonRetryable)| == 20;
  }

  ghost predicate Conserved(s: State, reports: seq<Report>) {
    && s.cycles == Cycled(reports)
    && (forall o :: CountOf(s.outcomes, Label(o)) == Tally(reports, o))
    && (forall key :: key in s.outcomes ==> exists o :: key == Label(o))
  }

  lemma ConservedStep(s: State, reports: seq<Report>, t: State, r: Report)
    requires Conserved(s, reports)
    requires if r.Cycled? then t.cycles == s.cycles + 1 && t.outcomes == Bump(s.outcomes, Label(r.outcome))
             else t.cycles == s.cycles && t.outcomes == s.outcomes
    ensures Conserved(t, reports + [r])
  {
    assert (reports + [r])[..|reports|] == reports;
    forall o ensures CountOf(t.outcomes, Label(o)) == Tally(reports + [r], o) {
      if r.Cycled? && Label(o) == Label(r.outcome) {
        LabelsDiffer(o, r.outcome);
      }
    }
  }

  /** Each cycle publishes exactly one outcome: every counter is its tally, and together they count the cycles. */
  lemma {:induction false} OutcomesConserved(c: Config, inputs: seq<CycleInput>)
    requires c.Valid()
    ensures Conserved(RunCycles(c, inputs).0, RunCycles(c, inputs).1)
    ensures var s := RunCycles(c, inputs).0;
            s.cycles == CountOf(s.outcomes, "success") + CountOf(s.outcomes, "no_candidates")
                        + CountOf(s.outcomes, "dedup") + CountOf(s.outcomes, "failed_retry_exhausted")
                        + CountOf(s.outcomes, "failed_non_retryable")
  {
    if inputs != [] {
      var n := |inputs| - 1;
      OutcomesConserved(c, inputs[..n]);
      LastReport(c, inputs);
      var (s, reports) := RunCycles(c, inputs[..n]);
      CycleEffect(c, s, inputs[n]);
      var (t, r) := Cycle(c, s, inputs[n]);
      ConservedStep(s, reports, t, r);
    }
    SumOfCounters(RunCycles(c, inputs).0, RunCycles(c, inputs).1);
  }

  lemma SumOfCounters(s: State, reports: seq<Report>)
    requires Conserved(s, reports)
    ensures s.cycles == CountOf(s.outcomes, "success") + CountOf(s.outcomes, "no_candidates")
                        + CountOf(s.outcomes, "dedup") + CountOf(s.outcomes, "failed_retry_exhausted")
                        + CountOf(s.outcomes, "failed_non_retryable")
  {
    TalliesSum(reports);
    assert CountOf(s.outcomes, Label(Success)) == Tally(reports, Success);
    assert CountOf(s.outcomes, Label(NoCandidates)) == Tally(reports, NoCandidates);
    assert CountOf(s.outcomes, Label(Dedup)) == Tally(reports, Dedup);
    assert CountOf(s.outcomes, Label(RetryExhausted)) == Tally(reports, RetryExhausted);
    assert CountOf(s.outcomes, Label(NonRetryable)) == Tally(reports, NonRetryable);
  }

  lemma {:induction false} TalliesSum(reports: seq<Report>)
    ensures Cycled(reports) == Tally(reports, Success) + Tally(reports, NoCandidates) + Tally(reports, Dedup)
                               + Tally(reports, RetryExhausted) + Tally(reports, NonRetryable)
  {
    if reports != [] {
      TalliesSum(reports[..|reports| - 1]);
    }
  }
}
