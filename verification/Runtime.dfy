/** The counters of the state manager that the two engines feed (internal/state/manager.go). */
module Runtime {
  const INT64_MAX: int := 0x7FFF_FFFF_FFFF_FFFF

  function CountOf(counts: map<string, int>, key: string): int {
    if key in counts then counts[key] else 0
  }

  function Bump(counts: map<string, int>, key: string): map<string, int> {
    counts[key := CountOf(counts, key) + 1]
  }

  function ClampToInt64(v: nat): int {
    if v > INT64_MAX then INT64_MAX else v
  }

  class StateManager {
    var schedulerCycleCount: int
    var schedulerLastCandidateCount: int
    var schedulerLastRunUnix: int
    var schedulerLastAssignStatus: string
    var schedulerAssignAttempts: map<string, int>
    var wsDisconnectTotal: int
    var wsDisconnectClose4009: int
    var wsDisconnectByReason: map<string, int>

    constructor ()
      ensures schedulerAssignAttempts == map[] && wsDisconnectTotal == 0
    {
      schedulerCycleCount, schedulerLastCandidateCount, schedulerLastRunUnix := 0, 0, 0;
      schedulerLastAssignStatus := "";
      schedulerAssignAttempts := map[];
      wsDisconnectTotal, wsDisconnectClose4009, wsDisconnectByReason := 0, 0, map[];
    }

    method RecordSchedulerAssignAttempt(result: string)
      modifies this`schedulerAssignAttempts
      ensures schedulerAssignAttempts ==
              if result == "" then old(schedulerAssignAttempts) else Bump(old(schedulerAssignAttempts), result)
    {
      if result == "" {
        return;
      }
      var before := if result in schedulerAssignAttempts then schedulerAssignAttempts[result] else 0;
      schedulerAssignAttempts := schedulerAssignAttempts[result := before + 1];
    }

    method SetSchedulerLastAssignStatus(status: string)
      modifies this`schedulerLastAssignStatus
      ensures schedulerLastAssignStatus == status
    {
      schedulerLastAssignStatus := status;
    }

    method SetRuntimeScheduler(cycleCount: int, lastCandidateCount: int, lastRunUnix: int)
      modifies this`schedulerCycleCount, this`schedulerLastCandidateCount, this`schedulerLastRunUnix
      ensures schedulerCycleCount == cycleCount
      ensures schedulerLastCandidateCount == lastCandidateCount
      ensures schedulerLastRunUnix == lastRunUnix
    {
      schedulerCycleCount := cycleCount;
      schedulerLastCandidateCount := lastCandidateCount;
      schedulerLastRunUnix := lastRunUnix;
    }

    method SetRuntimeWSDisconnect(total: nat, close4009: nat, byReason: map<string, nat>)
      modifies this`wsDisconnectTotal, this`wsDisconnectClose4009, this`wsDisconnectByReason
      ensures wsDisconnectTotal == ClampToInt64(total)
      ensures wsDisconnectClose4009 == ClampToInt64(close4009)
      ensures wsDisconnectByReason == map r | r in byReason :: ClampToInt64(byReason[r])
    {
      wsDisconnectTotal := ClampToInt64(total);
      wsDisconnectClose4009 := ClampToInt64(close4009);
      var reasons: map<string, int> := map[];
      var pending := byReason.Keys;
      while pending != {}
        invariant pending <= byReason.Keys
        invariant reasons == map r | r in byReason && r !in pending :: ClampToInt64(byReason[r])
        decreases pending
      {
        var reason :| reason in pending;
        pending := pending - {reason};
        reasons := reasons[reason := ClampToInt64(byReason[reason])];
      }
      wsDisconnectByReason := reasons;
    }
  }
}
