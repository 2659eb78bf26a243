/**
 The scheduler engine (internal/scheduler/scheduler.go): one cycle selects,
 deduplicates, assigns with retry, records. Cycle is the specification of
 RunCycle; EngineRuns.dfy proves what holds over whole runs of cycles.
 */
module Engine {
  import opened Sequences
  import opened Selection
  import opened AssignmentDedup
  import opened Backoff
  import opened DeadLetters
  import opened Runtime

  datatype Outcome = Success | NoCandidates | Dedup | RetryExhausted | NonRetryable

  function Label(o: Outcome): string {
    match o
    case Success => "success"
    case NoCandidates => "no_candidates"
    case Dedup => "dedup"
    case RetryExhausted => "failed_retry_exhausted"
    case NonRetryable => "failed_non_retryable"
  }

  /** One Assign call: nil, or an error with its retry classification. */
  datatype Reply = AssignOk | AssignError(message: string, retryable: bool)

  datatype Identity = NoIdentity | Identity(taskId: string)

  datatype Config = Config(
    taskType: TaskType,
    healthyWindow: int,
    limits: Limits,
    hasResources: bool,
    dedupWindow: int,
    epochLength: int,
    retryMax: int,
    retryInitial: int,
    retryMaxDelay: int,
    retryMultiplier: real,
    dlqMax: int)
  {
    ghost predicate Valid() {
      && limits.Valid() && dedupWindow > 0 && epochLength > 0 && healthyWindow > 0
      && retryMax > 0 && 0 < retryInitial <= retryMaxDelay && retryMultiplier > 1.0 && dlqMax > 0
    }
  }

  function OrDefault(v: int, default: int): int {
    if v <= 0 then default else v
  }

  /** NewEngine's defaults. */
  function Normalize(c: Config, interval: int): Config
    requires interval > 0
  {
    var initial := OrDefault(c.retryInitial, 100_000_000);
    var max := OrDefault(c.retryMaxDelay, 2_000_000_000);
    Config(
      c.taskType,
      OrDefault(c.healthyWindow, 15 * Selection.SECOND),
      NormalizeLimits(c.limits.hard, c.limits.soft, c.limits.weight),
      c.hasResources,
      OrDefault(c.dedupWindow, 2 * interval),
      OrDefault(c.epochLength, interval),
      OrDefault(c.retryMax, 2),
      initial,
      if max < initial then initial else max,
      if c.retryMultiplier <= 1.0 then 2.0 else c.retryMultiplier,
      OrDefault(c.dlqMax, 256))
  }

  /** Every configuration becomes a valid one; a valid one is kept as it is. */
  lemma NormalizeIsValid(c: Config, interval: int)
    requires interval > 0
    ensures Normalize(c, interval).Valid()
    ensures c.Valid() ==> Normalize(c, interval) == c
  {
    var limits := NormalizeLimits(c.limits.hard, c.limits.soft, c.limits.weight);
    assert limits.Valid();
    assert c.limits.Valid() ==> limits == c.limits;
  }

  /** Everything one cycle reads from outside; assign(n) answers its n-th Assign call. */
  datatype CycleInput = CycleInput(
    now: nat,
    snapshots: Option<seq<Snapshot>>,
    required: seq<ExchangeRef>,
    view: ResourceView,
    identity: Identity,
    assign: nat -> Reply)

  function TaskId(c: Config, identity: Identity): string {
    if identity.Identity? && identity.taskId != "" then identity.taskId
    else "scheduler." + (if c.taskType == MonitorTask then "monitor" else "trade")
  }

  function PolicyOf(c: Config, input: CycleInput): Policy {
    Policy(c.taskType, c.healthyWindow, c.limits, if c.hasResources then Some(input.view) else None, input.required)
  }

  function ClockOf(c: Config): Clock {
    Clock(c.epochLength, c.dedupWindow / AssignmentDedup.SECOND)
  }

  // ---- Assignment with retry -------------------------------------------

  /** The attempt at which the retry loop stops, starting from one that is about to be made. */
  function LastCall(assign: nat -> Reply, maxAttempts: nat, attempt: nat): (k: nat)
    requires 1 <= attempt <= maxAttempts
    ensures attempt <= k <= maxAttempts
    ensures forall j :: attempt <= j < k ==> assign(j).AssignError? && assign(j).retryable
    ensures assign(k).AssignError? && assign(k).retryable ==> k == maxAttempts
    decreases maxAttempts - attempt
  {
    match assign(attempt)
    case AssignOk => attempt
    case AssignError(_, retryable) =>
      if !retryable || attempt == maxAttempts then attempt else LastCall(assign, maxAttempts, attempt + 1)
  }

  /** All calls made failed exactly when the last one did. */
  lemma AllCallsFailed(assign: nat -> Reply, maxAttempts: nat)
    requires maxAttempts >= 1
    ensures var k := LastCall(assign, maxAttempts, 1);
            assign(k).AssignError? <==> forall j :: 1 <= j <= k ==> assign(j).AssignError?
  {
  }

  function ResultOf(reply: Reply): Outcome {
    match reply
    case AssignOk => Success
    case AssignError(_, retryable) => if retryable then RetryExhausted else NonRetryable
  }

  function Letter(c: Config, candidate: Candidate, taskId: string, epoch: int, nowUnix: int, calls: nat,
                  reply: Reply): DeadLetter
    requires reply.AssignError?
  {
    DeadLetter(taskId, candidate.traderId, candidate.sessionId, c.taskType, epoch, calls, reply.retryable,
               reply.message, nowUnix, nowUnix)
  }

  function Sum(s: seq<int>): int {
    if s == [] then 0 else Sum(s[..|s| - 1]) + s[|s| - 1]
  }

  lemma {:induction false} SumBound(s: seq<int>, max: nat)
    requires forall i :: 0 <= i < |s| ==> 0 <= s[i] <= max
    ensures 0 <= Sum(s) <= |s| * max
  {
    if s != [] {
      var n := |s| - 1;
      SumBound(s[..n], max);
      assert |s| * max == n * max + max;
    }
  }

  // ---- One cycle ---------------------------------------------------------

  datatype State = State(ledger: map<string, int>, deadLetters: seq<DeadLetter>, cycles: nat,
                         outcomes: map<string, int>)

  datatype Report =
    | Idle
    | Cycled(outcome: Outcome, selected: Option<Candidate>, calls: nat, letter: Option<DeadLetter>)

  function Candidates(c: Config, input: CycleInput): seq<Candidate>
    requires c.Valid() && input.snapshots.Some?
  {
    Pipeline(PolicyOf(c, input), Unix(input.now), input.snapshots.value)
  }

  function Publish(s: State, o: Outcome): State {
    s.(cycles := s.cycles + 1, outcomes := Bump(s.outcomes, Label(o)))
  }

  /** The cycle from the moment a candidate is selected. */
  function Dispatch(c: Config, s: State, input: CycleInput, selected: Candidate): (State, Report)
    requires c.Valid()
  {
    var taskId := TaskId(c, input.identity);
    var calls := LastCall(input.assign, c.retryMax + 1, 1);
    var reply := input.assign(calls);
    var (ledger, verdict) := AssignmentDedup.Step(ClockOf(c), s.ledger,
                                                  Attempt(taskId, selected.traderId, input.now, reply.AssignOk?));
    match verdict
    case Duplicate => (Publish(s.(ledger := ledger), Dedup), Cycled(Dedup, Some(selected), 0, None))
    case Assigned => (Publish(s.(ledger := ledger), Success), Cycled(Success, Some(selected), calls, None))
    case Failed =>
      assert reply.AssignError?;
      var letter := Letter(c, selected, taskId, EpochOf(input.now, c.epochLength), Unix(input.now), calls, reply);
      (Publish(s.(ledger := ledger, deadLetters := LastOf(s.deadLetters + [letter], c.dlqMax)), ResultOf(reply)),
       Cycled(ResultOf(reply), Some(selected), calls, Some(letter)))
  }

  function Kept(c: Config, s: State, input: CycleInput): map<string, int> {
    Evict(s.ledger, Unix(input.now), c.dedupWindow / AssignmentDedup.SECOND)
  }

  function CycleKey(c: Config, input: CycleInput, selected: Candidate): string
    requires c.Valid()
  {
    Key(TaskId(c, input.identity), selected.traderId, EpochOf(input.now, c.epochLength))
  }

  lemma DispatchSeen(c: Config, s: State, input: CycleInput, selected: Candidate)
    requires c.Valid() && CycleKey(c, input, selected) in Kept(c, s, input)
    ensures Dispatch(c, s, input, selected) ==
            (Publish(s.(ledger := Kept(c, s, input)), Dedup), Cycled(Dedup, Some(selected), 0, None))
  {
  }

  lemma DispatchAssigned(c: Config, s: State, input: CycleInput, selected: Candidate, calls: nat)
    requires c.Valid() && CycleKey(c, input, selected) !in Kept(c, s, input)
    requires calls == LastCall(input.assign, c.retryMax + 1, 1) && input.assign(calls).AssignOk?
    ensures var kept := Kept(c, s.(ledger := Kept(c, s, input)), input);
            Dispatch(c, s, input, selected) ==
            (Publish(s.(ledger := kept[CycleKey(c, input, selected) := Unix(input.now)]), Success),
             Cycled(Success, Some(selected), calls, None))
  {
  }

  lemma DispatchFailed(c: Config, s: State, input: CycleInput, selected: Candidate, calls: nat)
    requires c.Valid() && CycleKey(c, input, selected) !in Kept(c, s, input)
    requires calls == LastCall(input.assign, c.retryMax + 1, 1) && input.assign(calls).AssignError?
    ensures var reply := input.assign(calls);
            var letter := Letter(c, selected, TaskId(c, input.identity), EpochOf(input.now, c.epochLength),
                                 Unix(input.now), calls, reply);
            Dispatch(c, s, input, selected) ==
            (Publish(s.(ledger := Kept(c, s, input), deadLetters := LastOf(s.deadLetters + [letter], c.dlqMax)),
                     ResultOf(reply)),
             Cycled(ResultOf(reply), Some(selected), calls, Some(letter)))
  {
  }

  lemma DispatchReports(c: Config, s: State, input: CycleInput, selected: Candidate)
    requires c.Valid() && CycleKey(c, input, selected) !in Kept(c, s, input)
    ensures var calls := LastCall(input.assign, c.retryMax + 1, 1);
            var report := Dispatch(c, s, input, selected).1;
            && report.Cycled? && report.selected == Some(selected) && report.calls == calls
            && report.outcome == ResultOf(input.assign(calls))
  {
    var calls := LastCall(input.assign, c.retryMax + 1, 1);
    if input.assign(calls).AssignOk? {
      DispatchAssigned(c, s, input, selected, calls);
    } else {
      DispatchFailed(c, s, input, selected, calls);
    }
  }

  function Cycle(c: Config, s: State, input: CycleInput): (State, Report)
    requires c.Valid()
  {
    if input.snapshots.None? then (s, Idle)
    else if Candidates(c, input) == [] then (Publish(s, NoCandidates), Cycled(NoCandidates, None, 0, None))
    else Dispatch(c, s, input, Candidates(c, input)[0])
  }

  class SchedulerEngine {
    const config: Config
    const queue: DeadLetterQueue
    const metrics: StateManager
    var dedupAssigned: map<string, int>
    var cycles: nat
    var lastCandidate: nat

    ghost predicate Valid()
      reads this, queue
    {
      config.Valid() && queue.Valid() && queue.capacity == config.dlqMax
    }

    ghost function View(): State
      requires Valid()
      reads this, queue, queue.entries, metrics
    {
      State(dedupAssigned, queue.Contents(), cycles, metrics.schedulerAssignAttempts)
    }

    constructor (raw: Config, interval: int, metrics: StateManager)
      requires interval > 0
      ensures Valid() && fresh(queue) && fresh(queue.entries)
      ensures config == Normalize(raw, interval) && this.metrics == metrics
      ensures View() == State(map[], [], 0, metrics.schedulerAssignAttempts)
    {
      NormalizeIsValid(raw, interval);
      var c := Normalize(raw, interval);
      config := c;
      queue := new DeadLetterQueue(c.dlqMax, DeadLetter("", "", "", TradeTask, 0, 0, false, "", 0, 0));
      this.metrics := metrics;
      dedupAssigned := map[];
      cycles, lastCandidate := 0, 0;
    }

    method SeenAssignment(taskId: string, traderId: string, epoch: int, nowUnix: int) returns (exists_: bool)
      requires Valid()
      modifies this`dedupAssigned
      ensures dedupAssigned == Evict(old(dedupAssigned), nowUnix, config.dedupWindow / AssignmentDedup.SECOND)
      ensures exists_ <==> Key(taskId, traderId, epoch) in dedupAssigned
    {
      dedupAssigned := EvictOldAssignments(dedupAssigned, nowUnix, config.dedupWindow / AssignmentDedup.SECOND);
      exists_ := Key(taskId, traderId, epoch) in dedupAssigned;
    }

    method MarkAssignment(taskId: string, traderId: string, epoch: int, nowUnix: int)
      requires Valid()
      modifies this`dedupAssigned
      ensures dedupAssigned == Evict(old(dedupAssigned), nowUnix, config.dedupWindow / AssignmentDedup.SECOND)
                               [Key(taskId, traderId, epoch) := nowUnix]
    {
      dedupAssigned := EvictOldAssignments(dedupAssigned, nowUnix, config.dedupWindow / AssignmentDedup.SECOND);
      dedupAssigned := dedupAssigned[Key(taskId, traderId, epoch) := nowUnix];
    }

    /**
     No error exactly when the last call succeeded. Every earlier call failed
     retryably, the sleeps between calls are the back-off's closed form and add
     up to at most retryMax * retryMaxDelay, and a failure leaves one dead letter.
     */
    method AssignWithRetry(assign: nat -> Reply, candidate: Candidate, taskId: string, epoch: int, nowUnix: int)
      returns (result: Outcome, failed: bool, calls: nat, sleeps: seq<int>)
      requires Valid()
      modifies queue`length, queue.entries
      ensures Valid()
      ensures 1 <= calls <= config.retryMax + 1 && calls == LastCall(assign, config.retryMax + 1, 1)
      ensures forall j :: 1 <= j < calls ==> assign(j).AssignError? && assign(j).retryable
      ensures failed <==> forall j :: 1 <= j <= calls ==> assign(j).AssignError?
      ensures result == ResultOf(assign(calls))
      ensures |sleeps| == calls - 1 && 0 <= Sum(sleeps) <= config.retryMax * config.retryMaxDelay
      ensures forall j :: 0 <= j < |sleeps| ==>
                sleeps[j] == ClosedForm(config.retryInitial, config.retryMultiplier, config.retryMaxDelay, j + 1)
      ensures queue.Contents() ==
              if failed then
                var letter := Letter(config, candidate, taskId, epoch, nowUnix, calls, assign(calls));
                LastOf(old(queue.Contents()) + [letter], config.dlqMax)
              else old(queue.Contents())
    {
      var firstFailureUnix := 0;
      var maxAttempts := config.retryMax + 1;
      sleeps := [];
      calls := 1;
      while calls <= maxAttempts
        invariant 1 <= calls <= maxAttempts
        invariant LastCall(assign, maxAttempts, calls) == LastCall(assign, maxAttempts, 1)
        invariant firstFailureUnix == if calls > 1 then nowUnix else 0
        invariant |sleeps| == calls - 1
        invariant forall j :: 0 <= j < |sleeps| ==>
                    sleeps[j] == ClosedForm(config.retryInitial, config.retryMultiplier, config.retryMaxDelay, j + 1)
        invariant Valid() && queue.Contents() == old(queue.Contents())
        decreases maxAttempts - calls
      {
        var reply := assign(calls);
        if reply.AssignOk? {
          AllCallsFailed(assign, maxAttempts);
          SleepBound(config, sleeps);
          return Success, false, calls, sleeps;
        }
        var retryable := reply.retryable;
        if firstFailureUnix == 0 {
          firstFailureUnix := nowUnix;
        }
        if !retryable || calls == maxAttempts {
          result := RetryExhausted;
          if !retryable {
            result := NonRetryable;
          }
          queue.PushDeadLetter(DeadLetter(taskId, candidate.traderId, candidate.sessionId, config.taskType, epoch,
                                          calls, retryable, reply.message, nowUnix, firstFailureUnix));
          AllCallsFailed(assign, maxAttempts);
          SleepBound(config, sleeps);
          return result, true, calls, sleeps;
        }
        var backoff := RetryBackoff(config.retryInitial, config.retryMultiplier, config.retryMaxDelay, calls);
        sleeps := sleeps + [backoff];
        calls := calls + 1;
      }
      return RetryExhausted, false, calls, sleeps;
    }

    method PublishAssignOutcome(result: Outcome)
      modifies metrics`schedulerAssignAttempts, metrics`schedulerLastAssignStatus
      ensures metrics.schedulerAssignAttempts == Bump(old(metrics.schedulerAssignAttempts), Label(result))
      ensures metrics.schedulerLastAssignStatus == Label(result)
    {
      metrics.RecordSchedulerAssignAttempt(Label(result));
      metrics.SetSchedulerLastAssignStatus(Label(result));
    }

    method RunCycle(input: CycleInput) returns (report: Report)
      requires Valid()
      modifies this`dedupAssigned, this`cycles, this`lastCandidate, queue`length, queue.entries, metrics
      ensures Valid()
      ensures (View(), report) == Cycle(config, old(View()), input)
      ensures report.Cycled? ==> metrics.schedulerLastAssignStatus == Label(report.outcome)
                                 && metrics.schedulerCycleCount == cycles
    {
      if input.snapshots.None? {
        return Idle;
      }
      var snapshots := input.snapshots.value;
      var policy := PolicyOf(config, input);
      var nowUnix := Unix(input.now);
      var candidates := SelectCandidates(policy, nowUnix, snapshots);
      var rejections;
      candidates, rejections := ApplyResourceConstraints(policy, candidates, snapshots);
      lastCandidate := |candidates|;
      cycles := cycles + 1;
      metrics.SetRuntimeScheduler(cycles, |candidates|, nowUnix);
      if |candidates| == 0 {
        PublishAssignOutcome(NoCandidates);
        return Cycled(NoCandidates, None, 0, None);
      }
      report := DispatchSelected(input, candidates[0], old(View()));
    }

    /** The rest of RunCycle, for a cycle already counted. */
    method DispatchSelected(input: CycleInput, selected: Candidate, ghost before: State) returns (report: Report)
      requires Valid() && View() == before.(cycles := before.cycles + 1)
      modifies this`dedupAssigned, queue`length, queue.entries
      modifies metrics`schedulerAssignAttempts, metrics`schedulerLastAssignStatus
      ensures Valid()
      ensures (View(), report) == Dispatch(config, before, input, selected)
      ensures report.Cycled? && metrics.schedulerLastAssignStatus == Label(report.outcome)
    {
      var nowUnix := Unix(input.now);
      var taskId := TaskId(config, input.identity);
      var epoch := EpochOf(input.now, config.epochLength);
      var seen := SeenAssignment(taskId, selected.traderId, epoch, nowUnix);
      if seen {
        PublishAssignOutcome(Dedup);
        DispatchSeen(config, before, input, selected);
        return Cycled(Dedup, Some(selected), 0, None);
      }
      report := DispatchUnseen(input, selected, before);
    }

    /** The rest of RunCycle, for a key that is not in the swept map. */
    method DispatchUnseen(input: CycleInput, selected: Candidate, ghost before: State) returns (report: Report)
      requires Valid() && CycleKey(config, input, selected) !in Kept(config, before, input)
      requires View() == before.(cycles := before.cycles + 1, ledger := Kept(config, before, input))
      modifies this`dedupAssigned, queue`length, queue.entries
      modifies metrics`schedulerAssignAttempts, metrics`schedulerLastAssignStatus
      ensures Valid()
      ensures (View(), report) == Dispatch(config, before, input, selected)
      ensures report.Cycled? && metrics.schedulerLastAssignStatus == Label(report.outcome)
    {
      var nowUnix := Unix(input.now);
      var taskId := TaskId(config, input.identity);
      var epoch := EpochOf(input.now, config.epochLength);
      var result, failed, calls, sleeps := AssignWithRetry(input.assign, selected, taskId, epoch, nowUnix);
      if failed {
        PublishAssignOutcome(result);
        DispatchFailed(config, before, input, selected, calls);
        return Cycled(result, Some(selected), calls,
                      Some(Letter(config, selected, taskId, epoch, nowUnix, calls, input.assign(calls))));
      }
      MarkAssignment(taskId, selected.traderId, epoch, nowUnix);
      PublishAssignOutcome(Success);
      DispatchAssigned(config, before, input, selected, calls);
      return Cycled(Success, Some(selected), calls, None);
    }
  }

  /** At most retryMax sleeps, none longer than the cap. */
  lemma SleepBound(c: Config, sleeps: seq<int>)
    requires c.Valid() && |sleeps| <= c.retryMax
    requires forall j :: 0 <= j < |sleeps| ==>
               sleeps[j] == ClosedForm(c.retryInitial, c.retryMultiplier, c.retryMaxDelay, j + 1)
    ensures 0 <= Sum(sleeps) <= c.retryMax * c.retryMaxDelay
  {
    forall j | 0 <= j < |sleeps| ensures 0 <= sleeps[j] <= c.retryMaxDelay {
      NonDecreasing(c.retryInitial, c.retryMultiplier, c.retryMaxDelay, j + 1, j + 1);
    }
    SumBound(sleeps, c.retryMaxDelay);
    ProductMonotone(|sleeps|, c.retryMax, c.retryMaxDelay);
  }

  lemma ProductMonotone(a: nat, b: nat, m: nat)
    requires a <= b
    ensures a * m <= b * m
  {
    assert (b - a) * m >= 0;
    assert (b - a) * m == b * m - a * m;
  }
}
