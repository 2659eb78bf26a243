/**
 What a scheduler cycle reports and records (internal/scheduler/scheduler.go), told
 from what it was given: the ledger, the clock and the answers of its Assign calls.
 */
module CycleOutcomes {
  import opened Sequences
  import opened Text
  import opened Selection
  import opened Runtime
  import opened Engine
  import opened EngineRuns
  import SelectionProperties
  import ResourceLimits
  import DeadLetters
  import AssignmentDedup

  ghost predicate Retried(reply: Reply) {
    reply.AssignError? && reply.retryable
  }

  /** The k-th call is made, and settles the cycle. */
  ghost predicate SettledBy(c: Config, input: CycleInput, k: nat) {
    && 1 <= k <= c.retryMax + 1
    && (forall j :: 1 <= j < k ==> Retried(input.assign(j)))
    && !Retried(input.assign(k))
  }

  /** The printed key of an assignment that is still remembered. */
  ghost predicate Remembered(c: Config, ledger: map<string, int>, task: string, trader: string, now: nat)
    requires c.Valid()
  {
    var key := task + "|" + trader + "|" + Decimal(now / c.epochLength);
    key in ledger && ledger[key] > now / 1_000_000_000 - c.dedupWindow / 1_000_000_000
  }

  /** The identity provider's task, or one per task type. */
  ghost predicate NamesTask(c: Config, input: CycleInput, task: string) {
    && (input.identity.Identity? && input.identity.taskId != "" ==> task == input.identity.taskId)
    && (!(input.identity.Identity? && input.identity.taskId != "") ==>
          task == match c.taskType case MonitorTask => "scheduler.monitor" case TradeTask => "scheduler.trade")
  }

  lemma TaskIsNamed(c: Config, input: CycleInput)
    ensures NamesTask(c, input, TaskId(c, input.identity))
  {
  }

  lemma CallSettles(c: Config, input: CycleInput)
    requires c.Valid()
    ensures var k := LastCall(input.assign, c.retryMax + 1, 1);
            && (SettledBy(c, input, k) <==> !Retried(input.assign(k)))
            && (Retried(input.assign(k)) <==> forall j :: 1 <= j <= c.retryMax + 1 ==> Retried(input.assign(j)))
            && (forall j: nat :: SettledBy(c, input, j) ==> j == k)
  {
    var k := LastCall(input.assign, c.retryMax + 1, 1);
    assert forall j :: 1 <= j < k ==> Retried(input.assign(j));
  }

  /** The outcome of a cycle with a candidate, in terms of its inputs. */
  ghost predicate OutcomeIs(c: Config, s: State, input: CycleInput, trader: string, r: Report)
    requires c.Valid() && r.Cycled?
  {
    exists task :: NamesTask(c, input, task) &&
      var seen := Remembered(c, s.ledger, task, trader, input.now);
      && (r.outcome == Dedup <==> seen)
      && (r.outcome == Success <==> !seen && exists k: nat :: SettledBy(c, input, k) && input.assign(k).AssignOk?)
      && (r.outcome == NonRetryable <==>
            !seen && exists k: nat :: SettledBy(c, input, k) && input.assign(k).AssignError?)
      && (r.outcome == RetryExhausted <==> !seen && forall j :: 1 <= j <= c.retryMax + 1 ==> Retried(input.assign(j)))
  }

  /**
   A cycle reports no candidate exactly when nobody is ranked; a duplicate exactly
   when the key of its assignment is still remembered; and otherwise success, a
   permanent failure or exhaustion exactly as its calls go.
   */
  lemma OutcomeExactly(c: Config, s: State, input: CycleInput)
    requires c.Valid() && input.snapshots.Some?
    ensures var r := Cycle(c, s, input).1;
            && r.Cycled?
            && (r.outcome == NoCandidates <==> Candidates(c, input) == [])
            && (Candidates(c, input) != [] ==>
                  && r.selected == Some(Candidates(c, input)[0])
                  && OutcomeIs(c, s, input, Candidates(c, input)[0].traderId, r))
  {
    if Candidates(c, input) != [] {
      DispatchOutcome(c, s, input, Candidates(c, input)[0]);
    }
  }

  lemma DispatchOutcome(c: Config, s: State, input: CycleInput, selected: Candidate)
    requires c.Valid()
    ensures var r := Dispatch(c, s, input, selected).1;
            && r.Cycled? && r.outcome != NoCandidates && r.selected == Some(selected)
            && OutcomeIs(c, s, input, selected.traderId, r)
  {
    TaskIsNamed(c, input);
    CallSettles(c, input);
    SeenIsRemembered(c, s, input, selected);
    if CycleKey(c, input, selected) in Kept(c, s, input) {
      DispatchSeen(c, s, input, selected);
    } else {
      DispatchReports(c, s, input, selected);
    }
  }

  lemma SeenIsRemembered(c: Config, s: State, input: CycleInput, selected: Candidate)
    requires c.Valid()
    ensures CycleKey(c, input, selected) in Kept(c, s, input) <==>
            Remembered(c, s.ledger, TaskId(c, input.identity), selected.traderId, input.now)
  {
  }

  // ---- Candidates ----------------------------------------------------------------

  /**
   Who a configured cycle ranks: the sessions that pass the filter of its task and
   window, and with a resource table and required exchanges also its hard limit.
   */
  lemma RankedByConfig(c: Config, input: CycleInput, table: ResourceLimits.Table, at: int, s: Snapshot)
    requires c.Valid() && input.snapshots.Some? && s in input.snapshots.value
    requires SelectionProperties.DistinctSessions(input.snapshots.value)
    requires input.view == ResourceLimits.ViewOf(table, at)
    ensures (exists x :: x in Candidates(c, input) && x.sessionId == s.sessionId) <==>
            && Eligible(c.taskType, c.healthyWindow, input.now / 1_000_000_000, s)
            && (c.hasResources && input.required != [] ==>
                  && s.traderDbId > 0
                  && forall ref :: ref in input.required && ref.id > 0 ==>
                       ResourceLimits.Available(table(s.traderDbId, ref.id), at, c.limits.hard))
  {
    var p, nowUnix := PolicyOf(c, input), AssignmentDedup.Unix(input.now);
    if c.hasResources && input.required != [] {
      ResourceLimits.SurvivorsExactly(p, table, at, nowUnix, input.snapshots.value, s);
    } else {
      UnlimitedRanked(p, nowUnix, input.snapshots.value, s);
    }
  }

  lemma UnlimitedRanked(p: Policy, nowUnix: int, snapshots: seq<Snapshot>, s: Snapshot)
    requires p.limits.Valid() && Unconstrained(p) && SelectionProperties.DistinctSessions(snapshots) && s in snapshots
    ensures (exists x :: x in Pipeline(p, nowUnix, snapshots) && x.sessionId == s.sessionId) <==>
            Eligible(p.taskType, p.healthyWindow, nowUnix, s)
  {
    SelectionProperties.PipelineMembers(p, nowUnix, snapshots);
    SelectionProperties.SnapshotsDistinct(snapshots);
    if x :| x in Pipeline(p, nowUnix, snapshots) && x.sessionId == s.sessionId {
      var t :| t in snapshots && SelectionProperties.Final(p, nowUnix, t) == Some(x);
      SelectionProperties.FinalKeepsIdentity(p, nowUnix, t);
      assert t == s;
    }
    if Eligible(p.taskType, p.healthyWindow, nowUnix, s) {
      var x := SelectionProperties.Final(p, nowUnix, s).value;
      SelectionProperties.FinalKeepsIdentity(p, nowUnix, s);
      assert x in Pipeline(p, nowUnix, snapshots);
    }
  }

  // ---- Counters ----------------------------------------------------------------

  /** How many cycles ended with an outcome. */
  ghost predicate Counts(s: State, reports: seq<Report>) {
    && CountOf(s.outcomes, "success") == Tally(reports, Success)
    && CountOf(s.outcomes, "no_candidates") == Tally(reports, NoCandidates)
    && CountOf(s.outcomes, "dedup") == Tally(reports, Dedup)
    && CountOf(s.outcomes, "failed_retry_exhausted") == Tally(reports, RetryExhausted)
    && CountOf(s.outcomes, "failed_non_retryable") == Tally(reports, NonRetryable)
  }

  /** Each counter, by the name it is published under, counts the cycles with that outcome. */
  lemma CountersByName(c: Config, inputs: seq<CycleInput>)
    requires c.Valid()
    ensures Counts(RunCycles(c, inputs).0, RunCycles(c, inputs).1)
  {
    OutcomesConserved(c, inputs);
    var (s, reports) := RunCycles(c, inputs);
    assert CountOf(s.outcomes, Label(Success)) == Tally(reports, Success);
    assert CountOf(s.outcomes, Label(NoCandidates)) == Tally(reports, NoCandidates);
    assert CountOf(s.outcomes, Label(Dedup)) == Tally(reports, Dedup);
    assert CountOf(s.outcomes, Label(RetryExhausted)) == Tally(reports, RetryExhausted);
    assert CountOf(s.outcomes, Label(NonRetryable)) == Tally(reports, NonRetryable);
  }

  // ---- Dead letters ------------------------------------------------------------

  /** A dead letter tells the assignment, the number of calls and the last error. */
  ghost predicate Tells(c: Config, input: CycleInput, r: Report, letter: DeadLetters.DeadLetter)
    requires c.Valid()
  {
    && r.Cycled? && r.selected.Some? && r.calls >= 1
    && NamesTask(c, input, letter.taskId)
    && letter.traderId == r.selected.value.traderId && letter.sessionId == r.selected.value.sessionId
    && letter.taskType == c.taskType && letter.epoch == input.now / c.epochLength
    && letter.attempts == r.calls <= c.retryMax + 1
    && input.assign(r.calls) == AssignError(letter.error, letter.retryable)
    && (letter.retryable ==> r.calls == c.retryMax + 1)
    && letter.lastAttemptUnix == letter.firstFailureUnix == input.now / 1_000_000_000
  }

  lemma LetterTells(c: Config, s: State, input: CycleInput)
    requires c.Valid()
    ensures var r := Cycle(c, s, input).1;
            LetterOf(r).Some? ==> Tells(c, input, r, LetterOf(r).value)
  {
    if input.snapshots.Some? && Candidates(c, input) != [] {
      var selected := Candidates(c, input)[0];
      var calls := LastCall(input.assign, c.retryMax + 1, 1);
      TaskIsNamed(c, input);
      if CycleKey(c, input, selected) in Kept(c, s, input) {
        DispatchSeen(c, s, input, selected);
      } else if input.assign(calls).AssignOk? {
        DispatchAssigned(c, s, input, selected, calls);
      } else {
        DispatchFailed(c, s, input, selected, calls);
      }
    }
  }

  /** In any run, every report with a dead letter is told by it. */
  lemma {:induction false} LettersTell(c: Config, inputs: seq<CycleInput>, i: nat)
    requires c.Valid() && i < |inputs|
    ensures var r := RunCycles(c, inputs).1[i];
            LetterOf(r).Some? ==> Tells(c, inputs[i], r, LetterOf(r).value)
  {
    var n := |inputs| - 1;
    LastReport(c, inputs);
    if i < n {
      LettersTell(c, inputs[..n], i);
    } else {
      LetterTells(c, RunCycles(c, inputs[..n]).0, inputs[n]);
    }
  }
}
