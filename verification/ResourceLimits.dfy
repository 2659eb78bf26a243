/**
 Selection over the resource rows themselves: the scheduler's utilisation lookup
 is GetTraderExchangeUtilization (cmd/cts-core/main.go) on the rows of one moment.
 */
module ResourceLimits {
  import opened Sequences
  import opened Selection
  import opened SelectionProperties
  import opened ResourceRows

  /** The rows of a trader (by database id) on an exchange. */
  type Table = (int, int) -> Query

  function ViewOf(table: Table, now: int): ResourceView {
    (traderDbId, exchangeId) => UtilizationOf(table(traderDbId, exchangeId), now)
  }

  /** Some row is live or expired, and every live row is below the limit. */
  ghost predicate Available(q: Query, now: int, limit: real) {
    && q.Rows?
    && (exists row :: row in q.rows && row.Some?
                      && ((row.value.resetAt.Some? && now > row.value.resetAt.value)
                          || (row.value.used.Some? && row.value.max.Some? && row.value.max.value > 0.0)))
    && AllBelow(q.rows, now, limit)
  }

  lemma BelowIsAvailable(l: Limits, table: Table, now: int, dbId: int, exchangeId: int)
    requires l.Valid()
    ensures Below(l, ViewOf(table, now), dbId, exchangeId) <==> Available(table(dbId, exchangeId), now, l.hard)
  {
    var q := table(dbId, exchangeId);
    assert ViewOf(table, now)(dbId, exchangeId) == UtilizationOf(q, now);
    if q.Rows? {
      WorstIsLargest(q.rows, now);
      assert forall row :: row in q.rows ==>
        (Counts(row, now) <==>
           row.Some? && ((row.value.resetAt.Some? && now > row.value.resetAt.value)
                         || (row.value.used.Some? && row.value.max.Some? && row.value.max.value > 0.0)));
    }
  }

  lemma AdmittedOneExactly(l: Limits, view: ResourceView, dbId: int, ref: ExchangeRef)
    requires l.Valid()
    ensures AssessOne(l, view, dbId, ref).Admitted? <==> ref.id <= 0 || Below(l, view, dbId, ref.id)
  {
  }

  lemma {:induction false} AdmittedExactly(l: Limits, view: ResourceView, dbId: int, refs: seq<ExchangeRef>)
    requires l.Valid()
    ensures Assess(l, view, dbId, refs).Admitted? <==>
            forall ref :: ref in refs && ref.id > 0 ==> Below(l, view, dbId, ref.id)
  {
    if refs != [] {
      var before, last := refs[..|refs| - 1], refs[|refs| - 1];
      assert refs == before + [last];
      AdmittedExactly(l, view, dbId, before);
      AdmittedOneExactly(l, view, dbId, last);
    }
  }

  /** What a session needs to be ranked, in terms of its own rows. */
  ghost predicate MayServe(p: Policy, table: Table, now: int, nowUnix: int, s: Snapshot) {
    && Eligible(p.taskType, p.healthyWindow, nowUnix, s)
    && s.traderDbId > 0
    && forall ref :: ref in p.required && ref.id > 0 ==> Available(table(s.traderDbId, ref.id), now, p.limits.hard)
  }

  lemma RankedExactly(p: Policy, table: Table, now: int, nowUnix: int, s: Snapshot)
    requires p.limits.Valid() && p.required != [] && p.resources == Some(ViewOf(table, now))
    ensures Final(p, nowUnix, s).Some? <==> MayServe(p, table, now, nowUnix, s)
  {
    var view := p.resources.value;
    AdmittedExactly(p.limits, view, s.traderDbId, p.required);
    forall ref | ref in p.required && ref.id > 0
      ensures Below(p.limits, view, s.traderDbId, ref.id) <==>
              Available(table(s.traderDbId, ref.id), now, p.limits.hard)
    {
      BelowIsAvailable(p.limits, table, now, s.traderDbId, ref.id);
    }
  }

  /**
   A cycle with required exchanges and a resource table ranks exactly the eligible
   sessions all of whose live rows on every required exchange are below the hard
   limit, with at least one row that is live or whose window has passed.
   */
  lemma SurvivorsExactly(p: Policy, table: Table, now: int, nowUnix: int, snapshots: seq<Snapshot>, s: Snapshot)
    requires p.limits.Valid() && p.required != [] && p.resources == Some(ViewOf(table, now))
    requires DistinctSessions(snapshots) && s in snapshots
    ensures (exists c :: c in Pipeline(p, nowUnix, snapshots) && c.sessionId == s.sessionId)
            <==> MayServe(p, table, now, nowUnix, s)
  {
    PipelineMembers(p, nowUnix, snapshots);
    SnapshotsDistinct(snapshots);
    RankedExactly(p, table, now, nowUnix, s);
    if c :| c in Pipeline(p, nowUnix, snapshots) && c.sessionId == s.sessionId {
      var t :| t in snapshots && Final(p, nowUnix, t) == Some(c);
      FinalKeepsIdentity(p, nowUnix, t);
      assert t == s;
    }
    if MayServe(p, table, now, nowUnix, s) {
      var c := Final(p, nowUnix, s).value;
      FinalKeepsIdentity(p, nowUnix, s);
      assert c in Pipeline(p, nowUnix, snapshots);
    }
  }
}
