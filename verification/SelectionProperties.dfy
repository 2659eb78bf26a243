/**
 What the selection pipeline means: the exact order of its result, when that
 order is independent of Go's map iteration order, that its head is the least
 surviving candidate, and that more load never improves a trader's rank.
 */
module SelectionProperties {
  import opened Sequences
  import opened StableSort
  import opened Text
  import opened Selection

  lemma RankOrder()
    ensures StrictWeakOrder(RanksBefore)
  {
    forall a: Candidate, b: Candidate ensures RanksBefore(a, b) ==> !RanksBefore(b, a) {
      StringLessAsymmetric(a.traderId, b.traderId);
    }
    forall a: Candidate, b: Candidate, c: Candidate
      ensures RanksBefore(a, c) ==> RanksBefore(a, b) || RanksBefore(b, c)
    {
      if StringLess(a.traderId, c.traderId) {
        StringLessSplits(a.traderId, b.traderId, c.traderId);
      }
    }
  }

  /** Two candidates neither of which ranks first agree on score, heartbeat and trader id. */
  lemma TieMeansEqualKey(a: Candidate, b: Candidate)
    ensures !RanksBefore(a, b) && !RanksBefore(b, a) <==>
            a.score == b.score && a.lastHeartbeatUnix == b.lastHeartbeatUnix && a.traderId == b.traderId
  {
    StringLessAsymmetric(a.traderId, b.traderId);
  }

  ghost predicate DistinctSessions(snapshots: seq<Snapshot>) {
    forall i, j :: 0 <= i < j < |snapshots| ==> snapshots[i].sessionId != snapshots[j].sessionId
  }

  function Base(p: Policy, nowUnix: int, s: Snapshot): Option<Candidate> {
    ToCandidate(p.taskType, p.healthyWindow, nowUnix, RequiredNames(p.required), s)
  }

  /** One session's outcome on its own: filtered out, rejected, or ranked with its final score. */
  function Final(p: Policy, nowUnix: int, s: Snapshot): Option<Candidate>
    requires p.limits.Valid()
  {
    match Base(p, nowUnix, s)
    case None => None
    case Some(c) =>
      if Unconstrained(p) then Some(c)
      else
        match AssessSession(p.limits, p.resources.value, s.traderDbId, p.required)
        case Rejected(_) => None
        case Admitted(penalty) => Some(Penalized(c, penalty))
  }

  lemma {:induction false} BySessionFinds(snapshots: seq<Snapshot>, s: Snapshot)
    requires DistinctSessions(snapshots) && s in snapshots
    ensures s.sessionId in BySession(snapshots) && BySession(snapshots)[s.sessionId] == s
  {
    var n := |snapshots| - 1;
    if s != snapshots[n] {
      assert snapshots == snapshots[..n] + [snapshots[n]];
      BySessionFinds(snapshots[..n], s);
      var i :| 0 <= i < n && snapshots[i] == s;
    }
  }

  lemma SnapshotsDistinct(snapshots: seq<Snapshot>)
    requires DistinctSessions(snapshots)
    ensures NoDuplicates(snapshots)
    ensures forall s, t :: s in snapshots && t in snapshots && s != t ==> s.sessionId != t.sessionId
  {
  }

  lemma SelectedStage(p: Policy, nowUnix: int, snapshots: seq<Snapshot>)
    requires DistinctSessions(snapshots)
    ensures NoDuplicates(Selected(p, nowUnix, snapshots))
    ensures forall c :: c in Selected(p, nowUnix, snapshots) <==>
                        exists s :: s in snapshots && Base(p, nowUnix, s) == Some(c)
  {
    SnapshotsDistinct(snapshots);
    var names := RequiredNames(p.required);
    var f := s => ToCandidate(p.taskType, p.healthyWindow, nowUnix, names, s);
    FilterMapNoDuplicates(f, snapshots);
    var list := Shortlist(p, nowUnix, snapshots);
    SortNoDuplicates(RanksBefore, list);
    forall c ensures c in Sort(RanksBefore, list) <==> exists s :: s in snapshots && Base(p, nowUnix, s) == Some(c) {
      SortMember(RanksBefore, list, c);
    }
  }

  lemma SelectedOrder(p: Policy, nowUnix: int, snapshots: seq<Snapshot>, a: Snapshot, b: Snapshot)
    requires DistinctSessions(snapshots) && a in snapshots && b in snapshots && a != b
    requires Base(p, nowUnix, a).Some? && Base(p, nowUnix, b).Some?
    ensures var x, y := Base(p, nowUnix, a).value, Base(p, nowUnix, b).value;
            Precedes(Selected(p, nowUnix, snapshots), x, y) <==>
            RanksBefore(x, y) || (!RanksBefore(y, x) && Precedes(snapshots, a, b))
  {
    SnapshotsDistinct(snapshots);
    var names := RequiredNames(p.required);
    var f := s => ToCandidate(p.taskType, p.healthyWindow, nowUnix, names, s);
    FilterMapOrder(f, snapshots, a, b);
    RankOrder();
    var x, y := Base(p, nowUnix, a).value, Base(p, nowUnix, b).value;
    SortOrder(RanksBefore, Shortlist(p, nowUnix, snapshots), x, y);
  }

  /** The survivor function applied to a selected candidate is the session's own outcome. */
  lemma SurvivorIsFinal(p: Policy, nowUnix: int, snapshots: seq<Snapshot>, s: Snapshot)
    requires p.limits.Valid() && !Unconstrained(p)
    requires DistinctSessions(snapshots) && s in snapshots && Base(p, nowUnix, s).Some?
    ensures Survivor(p, p.resources.value, BySession(snapshots), Base(p, nowUnix, s).value) == Final(p, nowUnix, s)
  {
    BySessionFinds(snapshots, s);
  }

  lemma SurvivorsInjective(p: Policy, nowUnix: int, snapshots: seq<Snapshot>)
    requires p.limits.Valid() && !Unconstrained(p) && DistinctSessions(snapshots)
    ensures var bySession := BySession(snapshots);
            InjectiveOn(c => Survivor(p, p.resources.value, bySession, c), Selected(p, nowUnix, snapshots))
  {
    SelectedDistinct(p, nowUnix, snapshots);
  }

  lemma SelectedDistinct(p: Policy, nowUnix: int, snapshots: seq<Snapshot>)
    requires p.limits.Valid() && DistinctSessions(snapshots)
    ensures var list := Selected(p, nowUnix, snapshots);
            forall c, d :: c in list && d in list && c != d ==> c.sessionId != d.sessionId
  {
    SelectedStage(p, nowUnix, snapshots);
    SnapshotsDistinct(snapshots);
    var list := Selected(p, nowUnix, snapshots);
    forall c, d | c in list && d in list && c != d ensures c.sessionId != d.sessionId {
      var s :| s in snapshots && Base(p, nowUnix, s) == Some(c);
      var t :| t in snapshots && Base(p, nowUnix, t) == Some(d);
      assert s != t;
    }
  }

  /** A cycle chooses among exactly the sessions that pass the filters and the resource limits. */
  lemma PipelineMembers(p: Policy, nowUnix: int, snapshots: seq<Snapshot>)
    requires p.limits.Valid() && DistinctSessions(snapshots)
    ensures NoDuplicates(Pipeline(p, nowUnix, snapshots))
    ensures forall c :: c in Pipeline(p, nowUnix, snapshots) <==>
                        exists s :: s in snapshots && Final(p, nowUnix, s) == Some(c)
  {
    SelectedStage(p, nowUnix, snapshots);
    var list := Selected(p, nowUnix, snapshots);
    assert forall s :: s in snapshots && Base(p, nowUnix, s).Some? ==> Base(p, nowUnix, s).value in list;
    if list != [] && !Unconstrained(p) {
      var bySession := BySession(snapshots);
      var f := c => Survivor(p, p.resources.value, bySession, c);
      SurvivorsInjective(p, nowUnix, snapshots);
      FilterMapNoDuplicates(f, list);
      var kept := FilterMap(f, list);
      SortNoDuplicates(RanksBefore, kept);
      forall c ensures c in Sort(RanksBefore, kept) <==> exists s :: s in snapshots && Final(p, nowUnix, s) == Some(c) {
        SortMember(RanksBefore, kept, c);
        if c in kept {
          var d :| d in list && f(d) == Some(c);
          var s :| s in snapshots && Base(p, nowUnix, s) == Some(d);
          SurvivorIsFinal(p, nowUnix, snapshots, s);
        }
        if s :| s in snapshots && Final(p, nowUnix, s) == Some(c) {
          SurvivorIsFinal(p, nowUnix, snapshots, s);
          assert Base(p, nowUnix, s).value in list;
        }
      }
    }
  }

  /** Candidate x with pre-penalty rank x0 comes before y with y0; inputOrder settles a full tie. */
  predicate Ahead(x: Candidate, x0: Candidate, y: Candidate, y0: Candidate, inputOrder: bool) {
    RanksBefore(x, y)
    || (!RanksBefore(y, x) && (RanksBefore(x0, y0) || (!RanksBefore(y0, x0) && inputOrder)))
  }

  /**
   The whole pipeline as one order: final rank first, then the rank before
   penalties (left over from the first sort), then the order of the snapshots.
   */
  lemma PipelineOrder(p: Policy, nowUnix: int, snapshots: seq<Snapshot>, a: Snapshot, b: Snapshot)
    requires p.limits.Valid() && DistinctSessions(snapshots) && a in snapshots && b in snapshots && a != b
    requires Final(p, nowUnix, a).Some? && Final(p, nowUnix, b).Some?
    ensures var x, y := Final(p, nowUnix, a).value, Final(p, nowUnix, b).value;
            var x0, y0 := Base(p, nowUnix, a).value, Base(p, nowUnix, b).value;
            Precedes(Pipeline(p, nowUnix, snapshots), x, y) <==> Ahead(x, x0, y, y0, Precedes(snapshots, a, b))
  {
    SelectedStage(p, nowUnix, snapshots);
    SelectedOrder(p, nowUnix, snapshots, a, b);
    var list := Selected(p, nowUnix, snapshots);
    var x0, y0 := Base(p, nowUnix, a).value, Base(p, nowUnix, b).value;
    assert x0 in list && y0 in list;
    if Unconstrained(p) {
      RankOrder();
    } else {
      var bySession := BySession(snapshots);
      var f := c => Survivor(p, p.resources.value, bySession, c);
      SurvivorIsFinal(p, nowUnix, snapshots, a);
      SurvivorIsFinal(p, nowUnix, snapshots, b);
      SurvivorsInjective(p, nowUnix, snapshots);
      SnapshotsDistinct(snapshots);
      FilterMapOrder(f, list, x0, y0);
      RankOrder();
      SortOrder(RanksBefore, FilterMap(f, list), f(x0).value, f(y0).value);
    }
  }

  /** The chosen candidate: some surviving session, and no survivor ranks before it. */
  lemma HeadIsLeast(p: Policy, nowUnix: int, snapshots: seq<Snapshot>)
    requires p.limits.Valid() && DistinctSessions(snapshots)
    ensures Pipeline(p, nowUnix, snapshots) == [] <==> forall s :: s in snapshots ==> Final(p, nowUnix, s).None?
    ensures Pipeline(p, nowUnix, snapshots) != [] ==>
              var head := Pipeline(p, nowUnix, snapshots)[0];
              && (exists s :: s in snapshots && Final(p, nowUnix, s) == Some(head))
              && (forall s :: s in snapshots && Final(p, nowUnix, s).Some? ==>
                    !RanksBefore(Final(p, nowUnix, s).value, head))
  {
    PipelineMembers(p, nowUnix, snapshots);
    PipelineSorted(p, nowUnix, snapshots);
    var list := Pipeline(p, nowUnix, snapshots);
    assert forall s :: s in snapshots && Final(p, nowUnix, s).Some? ==> Final(p, nowUnix, s).value in list;
    if list != [] {
      assert list[0] in list;
      HeadOfSorted(list);
    }
  }

  lemma PipelineSorted(p: Policy, nowUnix: int, snapshots: seq<Snapshot>)
    requires p.limits.Valid()
    ensures Sorted(RanksBefore, Pipeline(p, nowUnix, snapshots))
  {
    RankOrder();
    SortSorted(RanksBefore, Shortlist(p, nowUnix, snapshots));
    if Selected(p, nowUnix, snapshots) != [] && !Unconstrained(p) {
      var bySession := BySession(snapshots);
      SortSorted(RanksBefore, FilterMap(c => Survivor(p, p.resources.value, bySession, c),
                                        Selected(p, nowUnix, snapshots)));
    }
  }

  lemma HeadOfSorted(list: seq<Candidate>)
    requires list != [] && Sorted(RanksBefore, list)
    ensures forall c :: c in list ==> !RanksBefore(c, list[0])
  {
    RankOrder();
    forall c | c in list ensures !RanksBefore(c, list[0]) {
      var i :| 0 <= i < |list| && list[i] == c;
    }
  }

  /**
   The ranking field by field: whoever comes earlier in the list has the smaller
   score; on equal scores the newer heartbeat; on those as well, no larger trader id.
   In particular the head is such against everyone else.
   */
  lemma RankedByFields(p: Policy, nowUnix: int, snapshots: seq<Snapshot>, i: nat, j: nat)
    requires p.limits.Valid() && i < j < |Pipeline(p, nowUnix, snapshots)|
    ensures var a, b := Pipeline(p, nowUnix, snapshots)[i], Pipeline(p, nowUnix, snapshots)[j];
            && a.score <= b.score
            && (a.score == b.score ==> a.lastHeartbeatUnix >= b.lastHeartbeatUnix)
            && (a.score == b.score && a.lastHeartbeatUnix == b.lastHeartbeatUnix ==>
                  a.traderId == b.traderId || exists k: nat :: DiffersAt(a.traderId, b.traderId, k))
  {
    PipelineSorted(p, nowUnix, snapshots);
    var a, b := Pipeline(p, nowUnix, snapshots)[i], Pipeline(p, nowUnix, snapshots)[j];
    StringLessAsymmetric(a.traderId, b.traderId);
    StringLessExactly(a.traderId, b.traderId);
  }

  /** No two ranked sessions agree on final score, heartbeat, trader id and pre-penalty score. */
  ghost predicate NoFullTies(p: Policy, nowUnix: int, snapshots: seq<Snapshot>)
    requires p.limits.Valid()
  {
    forall a, b | a in snapshots && b in snapshots && a != b
                  && Final(p, nowUnix, a).Some? && Final(p, nowUnix, b).Some? ::
      !FullTie(p, nowUnix, a, b)
  }

  predicate FullTie(p: Policy, nowUnix: int, a: Snapshot, b: Snapshot)
    requires p.limits.Valid()
    requires Final(p, nowUnix, a).Some? && Final(p, nowUnix, b).Some?
  {
    && a.traderId == b.traderId
    && a.lastHeartbeatUnix == b.lastHeartbeatUnix
    && Base(p, nowUnix, a).value.score == Base(p, nowUnix, b).value.score
    && Final(p, nowUnix, a).value.score == Final(p, nowUnix, b).value.score
  }

  lemma FullTieMeansNeitherRanks(p: Policy, nowUnix: int, a: Snapshot, b: Snapshot)
    requires p.limits.Valid() && Final(p, nowUnix, a).Some? && Final(p, nowUnix, b).Some?
    ensures var x, y := Final(p, nowUnix, a).value, Final(p, nowUnix, b).value;
            var x0, y0 := Base(p, nowUnix, a).value, Base(p, nowUnix, b).value;
            FullTie(p, nowUnix, a, b) <==>
            !RanksBefore(x, y) && !RanksBefore(y, x) && !RanksBefore(x0, y0) && !RanksBefore(y0, x0)
  {
    TieMeansEqualKey(Final(p, nowUnix, a).value, Final(p, nowUnix, b).value);
    TieMeansEqualKey(Base(p, nowUnix, a).value, Base(p, nowUnix, b).value);
  }

  lemma PermutationKeepsSessions(snapshots: seq<Snapshot>, other: seq<Snapshot>)
    requires DistinctSessions(snapshots) && multiset(snapshots) == multiset(other)
    ensures DistinctSessions(other)
    ensures forall s :: s in snapshots <==> s in other
  {
    SnapshotsDistinct(snapshots);
    NoDuplicatesFromMultiset(snapshots, other);
    forall s ensures s in snapshots <==> s in other {
      SameMembers(snapshots, other, s);
    }
    forall i, j | 0 <= i < j < |other| ensures other[i].sessionId != other[j].sessionId {
      assert other[i] in other && other[j] in other && other[i] != other[j];
    }
  }

  lemma LengthFromMembers<T>(s: seq<T>, t: seq<T>)
    requires NoDuplicates(s) && NoDuplicates(t) && forall x :: x in s <==> x in t
    ensures |s| == |t|
  {
    LengthIsCardinality(s);
    LengthIsCardinality(t);
    assert (set x | x in s) == (set x | x in t);
  }

  lemma {:induction false} LengthIsCardinality<T>(s: seq<T>)
    requires NoDuplicates(s)
    ensures |set x | x in s| == |s|
  {
    if s != [] {
      var n := |s| - 1;
      LengthIsCardinality(s[..n]);
      assert s == s[..n] + [s[n]];
      assert (set x | x in s) == (set x | x in s[..n]) + {s[n]};
    }
  }

  lemma SameResultWithoutTies(p: Policy, nowUnix: int, snapshots: seq<Snapshot>, other: seq<Snapshot>)
    requires p.limits.Valid() && DistinctSessions(snapshots) && multiset(snapshots) == multiset(other)
    requires NoFullTies(p, nowUnix, snapshots)
    ensures Pipeline(p, nowUnix, other) == Pipeline(p, nowUnix, snapshots)
  {
    PermutationKeepsSessions(snapshots, other);
    PipelineMembers(p, nowUnix, snapshots);
    PipelineMembers(p, nowUnix, other);
    var l, m := Pipeline(p, nowUnix, snapshots), Pipeline(p, nowUnix, other);
    LengthFromMembers(l, m);
    forall x, y | x in l && y in l && x != y && Precedes(l, x, y) ensures Precedes(m, x, y) {
      var a :| a in snapshots && Final(p, nowUnix, a) == Some(x);
      var b :| b in snapshots && Final(p, nowUnix, b) == Some(y);
      PipelineOrder(p, nowUnix, snapshots, a, b);
      PipelineOrder(p, nowUnix, other, a, b);
      FullTieMeansNeitherRanks(p, nowUnix, a, b);
    }
    SameOrderSameList(l, m);
  }

  lemma ReversalFlips<T>(s: seq<T>, x: T, y: T)
    requires Precedes(s, x, y)
    ensures Precedes(Reversed(s), y, x)
  {
    var i, j :| 0 <= i < j < |s| && s[i] == x && s[j] == y;
    var n := |s| - 1;
    assert Reversed(s)[n - j] == y && Reversed(s)[n - i] == x;
  }

  lemma TieShowsIterationOrder(p: Policy, nowUnix: int, snapshots: seq<Snapshot>, a: Snapshot, b: Snapshot)
    requires p.limits.Valid() && DistinctSessions(snapshots)
    requires a in snapshots && b in snapshots && a != b && Precedes(snapshots, a, b)
    requires Final(p, nowUnix, a).Some? && Final(p, nowUnix, b).Some? && FullTie(p, nowUnix, a, b)
    ensures Pipeline(p, nowUnix, Reversed(snapshots)) != Pipeline(p, nowUnix, snapshots)
  {
    var other := Reversed(snapshots);
    SnapshotsDistinct(snapshots);
    PermutationKeepsSessions(snapshots, other);
    SnapshotsDistinct(other);
    ReversalFlips(snapshots, a, b);
    PrecedesIsTotal(other, a, b);
    FullTieMeansNeitherRanks(p, nowUnix, a, b);
    PipelineOrder(p, nowUnix, snapshots, a, b);
    PipelineOrder(p, nowUnix, other, a, b);
  }

  /**
   Go's map iteration order cannot change the ranking exactly when no two ranked
   sessions tie on (final score, heartbeat, trader id, pre-penalty score).
   */
  lemma OrderIndependentExactly(p: Policy, nowUnix: int, snapshots: seq<Snapshot>)
    requires p.limits.Valid() && DistinctSessions(snapshots)
    ensures NoFullTies(p, nowUnix, snapshots) <==>
            forall other :: multiset(other) == multiset(snapshots) ==>
              Pipeline(p, nowUnix, other) == Pipeline(p, nowUnix, snapshots)
  {
    if NoFullTies(p, nowUnix, snapshots) {
      forall other | multiset(other) == multiset(snapshots)
        ensures Pipeline(p, nowUnix, other) == Pipeline(p, nowUnix, snapshots)
      {
        SameResultWithoutTies(p, nowUnix, snapshots, other);
      }
    } else {
      var a, b :| a in snapshots && b in snapshots && a != b && Final(p, nowUnix, a).Some?
                  && Final(p, nowUnix, b).Some? && FullTie(p, nowUnix, a, b);
      SnapshotsDistinct(snapshots);
      PrecedesIsTotal(snapshots, a, b);
      if Precedes(snapshots, a, b) {
        TieShowsIterationOrder(p, nowUnix, snapshots, a, b);
      } else {
        TieShowsIterationOrder(p, nowUnix, snapshots, b, a);
      }
      assert multiset(Reversed(snapshots)) == multiset(snapshots);
    }
  }

  // ---- Rank monotonicity -------------------------------------------------

  /** The same session with no smaller a score, before and after penalties, or gone. */
  ghost predicate NoBetter(p: Policy, q: Policy, nowUnix: int, s: Snapshot, t: Snapshot)
    requires p.limits.Valid() && q.limits.Valid()
  {
    Final(q, nowUnix, t).Some? ==>
      && Final(p, nowUnix, s).Some?
      && s.sessionId == t.sessionId && s.traderId == t.traderId && s.lastHeartbeatUnix == t.lastHeartbeatUnix
      && Base(p, nowUnix, s).value.score <= Base(q, nowUnix, t).value.score
      && Final(p, nowUnix, s).value.score <= Final(q, nowUnix, t).value.score
  }

  lemma AheadOfWorse(x: Candidate, x0: Candidate, y: Candidate, y0: Candidate,
                     z: Candidate, z0: Candidate, inputOrder: bool)
    requires z == y.(score := z.score) && z0 == y0.(score := z0.score)
    requires y.score <= z.score && y0.score <= z0.score
    requires Ahead(x, x0, y, y0, inputOrder)
    ensures Ahead(x, x0, z, z0, inputOrder)
  {
  }

  lemma ReplacedSnapshots(snapshots: seq<Snapshot>, i: nat, t: Snapshot, b: Snapshot)
    requires DistinctSessions(snapshots) && i < |snapshots| && t.sessionId == snapshots[i].sessionId
    requires b in snapshots && b != snapshots[i]
    ensures DistinctSessions(snapshots[i := t])
    ensures b in snapshots[i := t] && t in snapshots[i := t] && b != t
    ensures Precedes(snapshots[i := t], b, t) <==> Precedes(snapshots, b, snapshots[i])
  {
    var u := snapshots[i := t];
    var k :| 0 <= k < |snapshots| && snapshots[k] == b;
    assert u[k] == b && u[i] == t;
    assert forall j :: 0 <= j < |u| ==> u[j].sessionId == snapshots[j].sessionId;
    assert Precedes(u, b, t) <==> k < i;
    assert Precedes(snapshots, b, snapshots[i]) <==> k < i;
  }

  /** Whoever ranked ahead of a session that got no better still ranks ahead of it. */
  lemma NeverMovesEarlier(p: Policy, q: Policy, nowUnix: int, snapshots: seq<Snapshot>, i: nat,
                          t: Snapshot, b: Snapshot)
    requires p.limits.Valid() && q.limits.Valid() && DistinctSessions(snapshots) && i < |snapshots|
    requires t.sessionId == snapshots[i].sessionId && NoBetter(p, q, nowUnix, snapshots[i], t)
    requires b in snapshots && b != snapshots[i]
    requires Final(q, nowUnix, b) == Final(p, nowUnix, b) && Base(q, nowUnix, b) == Base(p, nowUnix, b)
    requires Final(p, nowUnix, b).Some? && Final(p, nowUnix, snapshots[i]).Some? && Final(q, nowUnix, t).Some?
    requires Precedes(Pipeline(p, nowUnix, snapshots), Final(p, nowUnix, b).value,
                      Final(p, nowUnix, snapshots[i]).value)
    ensures Precedes(Pipeline(q, nowUnix, snapshots[i := t]), Final(q, nowUnix, b).value, Final(q, nowUnix, t).value)
  {
    ReplacedSnapshots(snapshots, i, t, b);
    PipelineOrder(p, nowUnix, snapshots, b, snapshots[i]);
    PipelineOrder(q, nowUnix, snapshots[i := t], b, t);
    FinalKeepsIdentity(p, nowUnix, snapshots[i]);
    FinalKeepsIdentity(q, nowUnix, t);
    AheadOfWorse(Final(p, nowUnix, b).value, Base(p, nowUnix, b).value,
                 Final(p, nowUnix, snapshots[i]).value, Base(p, nowUnix, snapshots[i]).value,
                 Final(q, nowUnix, t).value, Base(q, nowUnix, t).value,
                 Precedes(snapshots, b, snapshots[i]));
  }

  lemma FinalKeepsIdentity(p: Policy, nowUnix: int, s: Snapshot)
    requires p.limits.Valid() && Final(p, nowUnix, s).Some?
    ensures Base(p, nowUnix, s).Some?
    ensures var c0, c := Base(p, nowUnix, s).value, Final(p, nowUnix, s).value;
            && c0 == Candidate(s.traderId, s.sessionId, s.lastHeartbeatUnix, c0.score)
            && c == c0.(score := c.score)
  {
  }

  lemma SquareMonotone(x: real, y: real)
    requires 0.0 <= x <= y
    ensures x * x <= y * y
    ensures x < y ==> x * x < y * y
  {
    var xx, xy, yy, gap := x * x, x * y, y * y, y - x;
    assert xy - xx == x * gap && yy - xy == y * gap;
    assert x * gap >= 0.0 && y * gap >= 0.0;
    assert gap > 0.0 && y > 0.0 ==> y * gap > 0.0;
  }

  lemma LoadRaisesScore(task: TaskType, names: seq<string>, s: Snapshot, load: real)
    requires s.loadIndex <= load
    ensures Score(task, names, s) <= Score(task, names, s.(loadIndex := load))
  {
    var l, m := ClampUnit(s.loadIndex), ClampUnit(load);
    SquareMonotone(l, m);
    SquareMonotone(EffectiveTradeLoad(s.tradeLoadIndex, s.loadIndex), EffectiveTradeLoad(s.tradeLoadIndex, load));
  }

  /** Both sessions are in the final list, a before b. */
  ghost predicate RanksAhead(p: Policy, nowUnix: int, snapshots: seq<Snapshot>, a: Snapshot, b: Snapshot)
    requires p.limits.Valid()
  {
    && Final(p, nowUnix, a).Some? && Final(p, nowUnix, b).Some?
    && Precedes(Pipeline(p, nowUnix, snapshots), Final(p, nowUnix, a).value, Final(p, nowUnix, b).value)
  }

  lemma LoadIsNoBetter(p: Policy, nowUnix: int, s: Snapshot, load: real)
    requires p.limits.Valid() && s.loadIndex <= load
    ensures NoBetter(p, p, nowUnix, s, s.(loadIndex := load))
  {
    LoadRaisesScore(p.taskType, RequiredNames(p.required), s, load);
  }

  /** Raising one session's load index either removes it or keeps everyone ahead of it ahead. */
  lemma LoadNeverImprovesRank(p: Policy, nowUnix: int, snapshots: seq<Snapshot>, i: nat, load: real, b: Snapshot)
    requires p.limits.Valid() && DistinctSessions(snapshots) && i < |snapshots|
    requires snapshots[i].loadIndex <= load
    requires b in snapshots && b != snapshots[i]
    ensures var t := snapshots[i].(loadIndex := load);
            RanksAhead(p, nowUnix, snapshots, b, snapshots[i]) ==>
            Final(p, nowUnix, t).None?
            || Precedes(Pipeline(p, nowUnix, snapshots[i := t]), Final(p, nowUnix, b).value, Final(p, nowUnix, t).value)
  {
    var a, t := snapshots[i], snapshots[i].(loadIndex := load);
    LoadIsNoBetter(p, nowUnix, a, load);
    if Final(p, nowUnix, t).Some? && RanksAhead(p, nowUnix, snapshots, b, a) {
      NeverMovesEarlier(p, p, nowUnix, snapshots, i, t, b);
    }
  }

  /** The second view reports no lower utilisation for one trader and the same for all others. */
  ghost predicate Busier(v: ResourceView, w: ResourceView, dbId: int) {
    && (forall d, e :: d != dbId ==> w(d, e) == v(d, e))
    && (forall e :: match (v(dbId, e), w(dbId, e))
                    case (Utilization(x), Utilization(y)) => x <= y
                    case (l, m) => l == m)
  }

  lemma QuotientMonotone(a: real, b: real, gap: real)
    requires 0.0 <= a <= b && gap > 0.0
    ensures 0.0 <= a / gap <= b / gap
  {
    var m, n := a / gap, b / gap;
    assert m * gap == a && n * gap == b;
    assert (n - m) * gap == b - a;
    assert n < m ==> (n - m) * gap < 0.0;
    assert m < 0.0 ==> m * gap < 0.0;
  }

  lemma WeightedSquareMonotone(weight: real, m: real, n: real)
    requires weight > 0.0 && 0.0 <= m <= n
    ensures 0.0 <= weight * m * m <= weight * n * n
  {
    SquareMonotone(m, n);
    var mm, nn := m * m, n * n;
    assert 0.0 <= mm;
    assert weight * mm >= 0.0 && weight * (nn - mm) >= 0.0;
    assert weight * (nn - mm) == weight * nn - weight * mm;
    assert weight * m * m == weight * mm && weight * n * n == weight * nn;
  }

  lemma PenaltyMonotone(l: Limits, x: real, y: real)
    requires l.Valid() && x <= y
    ensures 0.0 <= SoftPenalty(l, x) <= SoftPenalty(l, y)
  {
    var gap := 1.0 - l.soft;
    if x > l.soft {
      QuotientMonotone(x - l.soft, y - l.soft, gap);
      WeightedSquareMonotone(l.weight, (x - l.soft) / gap, (y - l.soft) / gap);
    } else if y > l.soft {
      QuotientMonotone(0.0, y - l.soft, gap);
      WeightedSquareMonotone(l.weight, 0.0, (y - l.soft) / gap);
    }
  }

  lemma {:induction false} BusierAssessment(l: Limits, v: ResourceView, w: ResourceView, dbId: int,
                                            refs: seq<ExchangeRef>)
    requires l.Valid() && Busier(v, w, dbId)
    ensures var old_, new_ := Assess(l, v, dbId, refs), Assess(l, w, dbId, refs);
            new_.Admitted? ==> old_.Admitted? && 0.0 <= old_.penalty <= new_.penalty
  {
    if refs != [] {
      var n := |refs| - 1;
      BusierAssessment(l, v, w, dbId, refs[..n]);
      var ref := refs[n];
      match (v(dbId, ref.id), w(dbId, ref.id)) {
        case (Utilization(x), Utilization(y)) => PenaltyMonotone(l, ClampUnit(x), ClampUnit(y));
        case (_, _) =>
      }
    }
  }

  lemma BusierIsNoBetter(p: Policy, w: ResourceView, nowUnix: int, a: Snapshot, b: Snapshot)
    requires p.limits.Valid() && p.resources.Some? && Busier(p.resources.value, w, a.traderDbId)
    requires b.traderDbId != a.traderDbId
    ensures NoBetter(p, p.(resources := Some(w)), nowUnix, a, a)
    ensures Final(p.(resources := Some(w)), nowUnix, b) == Final(p, nowUnix, b)
  {
    BusierAssessment(p.limits, p.resources.value, w, a.traderDbId, p.required);
    OthersUnaffected(p.limits, p.resources.value, w, a.traderDbId, b.traderDbId, p.required);
  }

  /**
   A session of the same database trader gets the same verdict and penalty, so it keeps its place
   relative to the first.
  */
  lemma SameTraderKeepsOrder(p: Policy, q: Policy, nowUnix: int, snapshots: seq<Snapshot>, a: Snapshot, b: Snapshot)
    requires p.limits.Valid() && DistinctSessions(snapshots) && a in snapshots && b in snapshots && a != b
    requires q == p.(resources := q.resources) && p.resources.Some? && q.resources.Some?
    requires a.traderDbId == b.traderDbId
    requires RanksAhead(p, nowUnix, snapshots, b, a) && Final(q, nowUnix, a).Some?
    ensures RanksAhead(q, nowUnix, snapshots, b, a)
  {
    FinalSplits(p, nowUnix, a);
    FinalSplits(p, nowUnix, b);
    FinalSplits(q, nowUnix, a);
    FinalSplits(q, nowUnix, b);
    PipelineOrder(p, nowUnix, snapshots, b, a);
    PipelineOrder(q, nowUnix, snapshots, b, a);
    ShiftKeepsOrder(Base(p, nowUnix, b).value, Base(p, nowUnix, a).value,
                    Extra(p, b.traderDbId), Extra(q, b.traderDbId), Precedes(snapshots, b, a));
  }

  /** What the resource limits add to a score. */
  function Extra(p: Policy, dbId: int): real
    requires p.limits.Valid() && p.resources.Some?
  {
    if p.required == [] then 0.0
    else
      match AssessSession(p.limits, p.resources.value, dbId, p.required)
      case Rejected(_) => 0.0
      case Admitted(penalty) => if penalty > 0.0 then penalty else 0.0
  }

  predicate PassesLimits(p: Policy, dbId: int)
    requires p.limits.Valid() && p.resources.Some?
  {
    p.required == [] || AssessSession(p.limits, p.resources.value, dbId, p.required).Admitted?
  }

  lemma FinalSplits(p: Policy, nowUnix: int, s: Snapshot)
    requires p.limits.Valid() && p.resources.Some?
    ensures Final(p, nowUnix, s) ==
            if Base(p, nowUnix, s).Some? && PassesLimits(p, s.traderDbId)
            then Some(Shifted(Base(p, nowUnix, s).value, Extra(p, s.traderDbId))) else None
  {
  }

  function Shifted(c: Candidate, extra: real): Candidate {
    c.(score := c.score + extra)
  }

  lemma ShiftKeepsOrder(x: Candidate, y: Candidate, e: real, f: real, inputOrder: bool)
    ensures Ahead(Shifted(x, e), x, Shifted(y, e), y, inputOrder) <==>
            Ahead(Shifted(x, f), x, Shifted(y, f), y, inputOrder)
  {
  }

  /** Raising any of one trader's exchange utilisations never improves its rank either, whoever is ahead of it. */
  lemma UtilizationNeverImprovesRank(p: Policy, w: ResourceView, nowUnix: int, snapshots: seq<Snapshot>, i: nat,
                                     b: Snapshot)
    requires p.limits.Valid() && DistinctSessions(snapshots) && i < |snapshots| && p.resources.Some?
    requires Busier(p.resources.value, w, snapshots[i].traderDbId)
    requires b in snapshots && b != snapshots[i]
    ensures var q, a := p.(resources := Some(w)), snapshots[i];
            RanksAhead(p, nowUnix, snapshots, b, a) ==>
              Final(q, nowUnix, a).None? || RanksAhead(q, nowUnix, snapshots, b, a)
    ensures b.traderDbId != snapshots[i].traderDbId ==>
              Final(p.(resources := Some(w)), nowUnix, b) == Final(p, nowUnix, b)
  {
    var q, a := p.(resources := Some(w)), snapshots[i];
    if b.traderDbId != a.traderDbId {
      BusierIsNoBetter(p, w, nowUnix, a, b);
    }
    if Final(q, nowUnix, a).Some? && RanksAhead(p, nowUnix, snapshots, b, a) {
      if b.traderDbId != a.traderDbId {
        assert snapshots[i := a] == snapshots;
        NeverMovesEarlier(p, q, nowUnix, snapshots, i, a, b);
      } else {
        SameTraderKeepsOrder(p, q, nowUnix, snapshots, a, b);
      }
    }
  }

  lemma {:induction false} OthersUnaffected(l: Limits, v: ResourceView, w: ResourceView, dbId: int, other: int,
                                            refs: seq<ExchangeRef>)
    requires l.Valid() && Busier(v, w, dbId) && other != dbId
    ensures Assess(l, v, other, refs) == Assess(l, w, other, refs)
  {
    if refs != [] {
      OthersUnaffected(l, v, w, dbId, other, refs[..|refs| - 1]);
    }
  }

  /**
   The trade load index is different: raising it lowers a monitor score exactly
   when it leaves zero for a value below the general load it had stood in for.
   */
  lemma TradeLoadImprovesExactly(names: seq<string>, s: Snapshot, tradeLoad: real)
    requires s.tradeLoadIndex <= tradeLoad
    ensures Score(MonitorTask, names, s.(tradeLoadIndex := tradeLoad)) < Score(MonitorTask, names, s) <==>
            s.tradeLoadIndex <= 0.0 && 0.0 < tradeLoad < ClampUnit(s.loadIndex)
  {
    var was := EffectiveTradeLoad(s.tradeLoadIndex, s.loadIndex);
    var now := EffectiveTradeLoad(tradeLoad, s.loadIndex);
    if now < was {
      SquareMonotone(now, was);
    } else {
      SquareMonotone(was, now);
    }
  }

  /** Every required utilisation is known and below the hard limit; the score grew by a bounded penalty. */
  ghost predicate WithinLimits(p: Policy, nowUnix: int, s: Snapshot, c: Candidate)
    requires p.limits.Valid() && !Unconstrained(p)
  {
    && s.sessionId == c.sessionId && s.traderDbId > 0
    && (forall ref :: ref in p.required && ref.id > 0 ==> Below(p.limits, p.resources.value, s.traderDbId, ref.id))
    && Base(p, nowUnix, s).Some?
    && 0.0 <= c.score - Base(p, nowUnix, s).value.score <= Times(|p.required|, MaxPenalty(p.limits))
  }

  predicate Below(l: Limits, view: ResourceView, dbId: int, exchangeId: int) {
    view(dbId, exchangeId).Utilization? && ClampUnit(view(dbId, exchangeId).value) < l.hard
  }

  /**
   Every ranked session is within the limits; its penalty is at most the number of exchanges times
   the largest one.
  */
  lemma SurvivorsWithinLimits(p: Policy, nowUnix: int, snapshots: seq<Snapshot>, c: Candidate)
    requires p.limits.Valid() && !Unconstrained(p) && DistinctSessions(snapshots)
    requires c in Pipeline(p, nowUnix, snapshots)
    ensures exists s :: s in snapshots && WithinLimits(p, nowUnix, s, c)
  {
    PipelineMembers(p, nowUnix, snapshots);
    var s :| s in snapshots && Final(p, nowUnix, s) == Some(c);
    FinalWithinLimits(p, nowUnix, s);
  }

  lemma FinalWithinLimits(p: Policy, nowUnix: int, s: Snapshot)
    requires p.limits.Valid() && !Unconstrained(p) && Final(p, nowUnix, s).Some?
    ensures WithinLimits(p, nowUnix, s, Final(p, nowUnix, s).value)
  {
    FinalIsAdmitted(p, nowUnix, s);
    AdmittedBelow(p.limits, p.resources.value, s.traderDbId, p.required);
    AdmittedPenalty(p.limits, p.resources.value, s.traderDbId, p.required);
    FinalScore(p, nowUnix, s);
    RepeatedIsProduct(|p.required|, MaxPenalty(p.limits));
  }

  lemma FinalIsAdmitted(p: Policy, nowUnix: int, s: Snapshot)
    requires p.limits.Valid() && !Unconstrained(p) && Final(p, nowUnix, s).Some?
    ensures Base(p, nowUnix, s).Some? && s.traderDbId > 0
    ensures Assess(p.limits, p.resources.value, s.traderDbId, p.required).Admitted?
  {
  }

  lemma FinalScore(p: Policy, nowUnix: int, s: Snapshot)
    requires p.limits.Valid() && !Unconstrained(p) && Final(p, nowUnix, s).Some?
    requires Base(p, nowUnix, s).Some? && s.traderDbId > 0
    requires Assess(p.limits, p.resources.value, s.traderDbId, p.required).Admitted?
    requires Assess(p.limits, p.resources.value, s.traderDbId, p.required).penalty >= 0.0
    ensures Final(p, nowUnix, s).value.sessionId == s.sessionId
    ensures Final(p, nowUnix, s).value.score - Base(p, nowUnix, s).value.score ==
            Assess(p.limits, p.resources.value, s.traderDbId, p.required).penalty
  {
    FinalKeepsIdentity(p, nowUnix, s);
  }

  function MaxPenalty(l: Limits): real
    requires l.Valid()
  {
    var norm := (l.hard - l.soft) / (1.0 - l.soft);
    l.weight * norm * norm
  }

  lemma AdmittedOneWithinLimits(l: Limits, view: ResourceView, dbId: int, ref: ExchangeRef)
    requires l.Valid() && AssessOne(l, view, dbId, ref).Admitted?
    ensures ref.id > 0 ==> Below(l, view, dbId, ref.id)
    ensures 0.0 <= AssessOne(l, view, dbId, ref).penalty <= MaxPenalty(l)
  {
    assert SoftPenalty(l, l.hard) == MaxPenalty(l);
    PenaltyMonotone(l, l.hard, l.hard);
    if ref.id > 0 {
      PenaltyMonotone(l, ClampUnit(view(dbId, ref.id).value), l.hard);
    }
  }

  lemma OneMore(n: nat, m: real)
    ensures (n + 1) as real * m == n as real * m + m
  {
  }

  lemma {:induction false} AdmittedBelow(l: Limits, view: ResourceView, dbId: int, refs: seq<ExchangeRef>)
    requires l.Valid() && Assess(l, view, dbId, refs).Admitted?
    ensures forall ref :: ref in refs && ref.id > 0 ==> Below(l, view, dbId, ref.id)
  {
    if refs != [] {
      var n := |refs| - 1;
      assert refs == refs[..n] + [refs[n]];
      AdmittedBelow(l, view, dbId, refs[..n]);
      AdmittedOneWithinLimits(l, view, dbId, refs[n]);
    }
  }

  lemma AdmittedPenalty(l: Limits, view: ResourceView, dbId: int, refs: seq<ExchangeRef>)
    requires l.Valid() && Assess(l, view, dbId, refs).Admitted?
    ensures 0.0 <= Assess(l, view, dbId, refs).penalty <= Repeated(|refs|, MaxPenalty(l))
  {
    var max := MaxPenalty(l);
    forall ref | AssessOne(l, view, dbId, ref).Admitted? ensures 0.0 <= AssessOne(l, view, dbId, ref).penalty <= max {
      AdmittedOneWithinLimits(l, view, dbId, ref);
    }
    PenaltiesAddUp(l, view, dbId, refs, max);
  }

  function Times(n: nat, m: real): real {
    n as real * m
  }

  /** n summands m. */
  function Repeated(n: nat, m: real): real {
    if n == 0 then 0.0 else Repeated(n - 1, m) + m
  }

  lemma {:induction false} RepeatedIsProduct(n: nat, m: real)
    ensures Repeated(n, m) == Times(n, m)
  {
    if n > 0 {
      RepeatedIsProduct(n - 1, m);
      OneMore(n - 1, m);
    }
  }

  lemma {:induction false} PenaltiesAddUp(l: Limits, view: ResourceView, dbId: int, refs: seq<ExchangeRef>, max: real)
    requires l.Valid() && Assess(l, view, dbId, refs).Admitted?
    requires forall ref :: AssessOne(l, view, dbId, ref).Admitted? ==>
               0.0 <= AssessOne(l, view, dbId, ref).penalty <= max
    ensures 0.0 <= Assess(l, view, dbId, refs).penalty <= Repeated(|refs|, max)
  {
    if refs != [] {
      var n := |refs| - 1;
      PenaltiesAddUp(l, view, dbId, refs[..n], max);
      assert |refs[..n]| == n && AssessOne(l, view, dbId, refs[n]).Admitted?;
    }
  }
}
