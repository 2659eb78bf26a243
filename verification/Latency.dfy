/**
 The two latency-profile computations: the handler's, which iterates a Go map
 (internal/api/ws/handler.go), and the scheduler's, which iterates the required
 exchange list (internal/scheduler/scheduler.go). Names are already normalised.
 */
module Latency {
  import opened Sequences
  import opened StableSort

  const MISSING_PROFILE_PENALTY: real := 5000.0
  const MISSING_EXCHANGE_PENALTY: real := 300.0

  predicate RealLess(x: real, y: real) {
    x < y
  }

  lemma RealLessOrders()
    ensures StrictWeakOrder(RealLess)
  {
  }

  /** normalizeExchangeList on names already trimmed and lower-cased: drop "" and repeats. */
  function Distinct(names: seq<string>): (r: seq<string>)
    ensures NoDuplicates(r) && "" !in r
    ensures forall n :: n in r <==> n in names && n != ""
    ensures |r| <= |names|
    ensures |r| == |names| <==> NoDuplicates(names) && "" !in names
    ensures |r| == |names| ==> r == names
  {
    if names == [] then []
    else
      var before := names[..|names| - 1];
      var last := names[|names| - 1];
      assert names == before + [last];
      var r := Distinct(before);
      if last == "" || last in before then
        assert !(NoDuplicates(names) && "" !in names) by {
          if last in before {
            var i :| 0 <= i < |before| && before[i] == last;
            assert names[i] == names[|names| - 1];
          }
        }
        r
      else
        assert "" in names <==> "" in before;
        assert NoDuplicates(names) <==> NoDuplicates(before) by {
          if NoDuplicates(names) {
            forall i, j | 0 <= i < j < |before| ensures before[i] != before[j] {
              assert names[i] != names[j];
            }
          }
        }
        r + [last]
  }

  /** math.Ceil(0.95*n) - 1. For n > 0 the source's two clamps never apply: the index is in range. */
  function Percentile95Index(n: nat): (i: nat)
    requires n > 0
    ensures i < n
    ensures 100 * (i + 1) >= 95 * n && 100 * i < 95 * n
  {
    (95 * n + 99) / 100 - 1
  }

  /** 95th percentile plus a tenth of the spread, on ascending values. */
  function ProfileOf(ascending: seq<real>): real
    requires ascending != []
  {
    ascending[Percentile95Index(|ascending|)] + 0.10 * (ascending[|ascending| - 1] - ascending[0])
  }

  predicate Usable(latencies: map<string, real>, name: string) {
    name in latencies && latencies[name] >= 0.0
  }

  function Sample(latencies: map<string, real>, name: string): Option<real> {
    if Usable(latencies, name) then Some(latencies[name]) else None
  }

  function Samples(latencies: map<string, real>, names: seq<string>): seq<real> {
    FilterMap(n => Sample(latencies, n), names)
  }

  function SortedSamples(latencies: map<string, real>, names: seq<string>): (r: seq<real>)
    ensures |r| == |Samples(latencies, names)|
  {
    SortPermutes(RealLess, Samples(latencies, names));
    Sort(RealLess, Samples(latencies, names))
  }

  /** estimateLatencyProfileMsForTask. */
  function TaskEstimate(profileMs: real, latencies: map<string, real>, required: seq<string>): real {
    if required == [] then (if profileMs > 0.0 then profileMs else MISSING_PROFILE_PENALTY)
    else if Samples(latencies, required) == [] then
      MISSING_PROFILE_PENALTY + |required| as real * MISSING_EXCHANGE_PENALTY
    else
      ProfileOf(SortedSamples(latencies, required))
      + (|required| - |Samples(latencies, required)|) as real * MISSING_EXCHANGE_PENALTY
  }

  lemma {:induction false} SamplesCount(latencies: map<string, real>, names: seq<string>)
    ensures |Samples(latencies, names)| <= |names|
  {
    if names != [] {
      SamplesCount(latencies, names[..|names| - 1]);
    }
  }

  // ---- What a profile says ---------------------------------------------------

  /** The listed exchanges that have been measured. */
  function Measured(latencies: map<string, real>, names: seq<string>): set<string> {
    set n | n in names && n in latencies && latencies[n] >= 0.0
  }

  /**
   A latency that at least 95 of 100 measurements do not exceed and fewer than 95 of
   100 stay below, plus a tenth of the distance between the smallest and the largest,
   plus 300 ms for each missing exchange.
   */
  ghost predicate IsProfile(latencies: map<string, real>, measured: set<string>, missing: int, profile: real)
    requires measured <= latencies.Keys
  {
    exists lo, v, hi ::
      && lo in measured && v in measured && hi in measured
      && ProfileAt(latencies, measured, lo, v, hi)
      && profile == Charged(latencies[v] + (latencies[hi] - latencies[lo]) / 10.0, missing)
  }

  function Charged(profile: real, missing: int): real {
    profile + missing as real * 300.0
  }

  ghost predicate ProfileAt(latencies: map<string, real>, measured: set<string>, lo: string, v: string, hi: string)
    requires measured <= latencies.Keys && lo in measured && v in measured && hi in measured
  {
    && (forall n :: n in measured ==> latencies[lo] <= latencies[n] <= latencies[hi])
    && 100 * |NotAbove(latencies, measured, latencies[v])| >= 95 * |measured|
    && 100 * |Below(latencies, measured, latencies[v])| < 95 * |measured|
  }

  function NotAbove(latencies: map<string, real>, measured: set<string>, x: real): set<string>
    requires measured <= latencies.Keys
  {
    set n | n in measured && latencies[n] <= x
  }

  function Below(latencies: map<string, real>, measured: set<string>, x: real): set<string>
    requires measured <= latencies.Keys
  {
    set n | n in measured && latencies[n] < x
  }

  predicate Counted(x: real, strict: bool, y: real) {
    y < x || (!strict && y == x)
  }

  /** How many values do not exceed x, or stay below it. */
  function CountUpTo(s: seq<real>, x: real, strict: bool): nat {
    if s == [] then 0 else CountUpTo(s[..|s| - 1], x, strict) + if Counted(x, strict, s[|s| - 1]) then 1 else 0
  }

  lemma {:induction false} CountConcat(s: seq<real>, t: seq<real>, x: real, strict: bool)
    ensures CountUpTo(s + t, x, strict) == CountUpTo(s, x, strict) + CountUpTo(t, x, strict)
  {
    if t == [] {
      assert s + t == s;
    } else {
      var n := |t| - 1;
      assert (s + t)[..|s| + n] == s + t[..n] && (s + t)[|s| + n] == t[n];
      CountConcat(s, t[..n], x, strict);
    }
  }

  lemma {:induction false} CountAllOrNone(s: seq<real>, x: real, strict: bool, all: bool)
    requires forall y :: y in s ==> Counted(x, strict, y) == all
    ensures CountUpTo(s, x, strict) == if all then |s| else 0
  {
    if s != [] {
      CountAllOrNone(s[..|s| - 1], x, strict, all);
    }
  }

  lemma {:induction false} CountIsBounded(s: seq<real>, x: real, strict: bool)
    ensures CountUpTo(s, x, strict) <= |s|
  {
    if s != [] {
      CountIsBounded(s[..|s| - 1], x, strict);
    }
  }

  lemma {:induction false} CountPermuted(s: seq<real>, t: seq<real>, x: real, strict: bool)
    requires multiset(s) == multiset(t)
    ensures CountUpTo(s, x, strict) == CountUpTo(t, x, strict)
  {
    if s == [] {
      assert |multiset(t)| == |t|;
    } else {
      var n := |s| - 1;
      assert s == s[..n] + [s[n]];
      assert s[n] in multiset(t);
      var k :| 0 <= k < |t| && t[k] == s[n];
      assert t == t[..k] + [t[k]] + t[k + 1..];
      assert multiset(s[..n]) == multiset(s) - multiset{s[n]};
      assert multiset(t[..k] + t[k + 1..]) == multiset(t) - multiset{s[n]};
      CountPermuted(s[..n], t[..k] + t[k + 1..], x, strict);
      CountWithout(t, k, x, strict);
    }
  }

  lemma CountWithout(t: seq<real>, k: nat, x: real, strict: bool)
    requires k < |t|
    ensures CountUpTo(t, x, strict) ==
            CountUpTo(t[..k] + t[k + 1..], x, strict) + if Counted(x, strict, t[k]) then 1 else 0
  {
    var a, z, b := t[..k], t[k], t[k + 1..];
    assert t == (a + [z]) + b && (a + [z])[..k] == a;
    CountConcat(a, b, x, strict);
    CountConcat(a + [z], b, x, strict);
  }

  /** On ascending values position i has i + 1 values up to it and at most i below it. */
  lemma CountsAt(s: seq<real>, i: nat)
    requires Sorted(RealLess, s) && i < |s|
    ensures CountUpTo(s, s[i], false) >= i + 1 && CountUpTo(s, s[i], true) <= i
  {
    assert s == s[..i + 1] + s[i + 1..] && s == s[..i] + s[i..];
    CountConcat(s[..i + 1], s[i + 1..], s[i], false);
    CountAllOrNone(s[..i + 1], s[i], false, true);
    CountConcat(s[..i], s[i..], s[i], true);
    CountAllOrNone(s[i..], s[i], true, false);
    CountIsBounded(s[..i], s[i], true);
  }

  function Chosen(latencies: map<string, real>, names: seq<string>, x: real, strict: bool): set<string> {
    set n | n in Measured(latencies, names) && Counted(x, strict, latencies[n])
  }

  /** Counting measurements is counting the exchanges they belong to. */
  lemma {:induction false} CountNames(latencies: map<string, real>, names: seq<string>, x: real, strict: bool)
    requires NoDuplicates(names)
    ensures CountUpTo(Samples(latencies, names), x, strict) == |Chosen(latencies, names, x, strict)|
    ensures |Samples(latencies, names)| == |Measured(latencies, names)|
  {
    if names != [] {
      var before, last := names[..|names| - 1], names[|names| - 1];
      assert names == before + [last] && last !in before;
      CountNames(latencies, before, x, strict);
      FilterMapAppend(n => Sample(latencies, n), before, last);
      var samples := Samples(latencies, before);
      if Usable(latencies, last) {
        assert Samples(latencies, names) == samples + [latencies[last]];
        assert (samples + [latencies[last]])[..|samples|] == samples;
        assert Measured(latencies, names) == Measured(latencies, before) + {last};
        ChosenAppend(latencies, before, last, x, strict);
      } else {
        assert Samples(latencies, names) == samples;
        assert Measured(latencies, names) == Measured(latencies, before);
      }
    }
  }

  lemma ChosenAppend(latencies: map<string, real>, before: seq<string>, last: string, x: real, strict: bool)
    requires last !in before && Usable(latencies, last)
    ensures |Chosen(latencies, before + [last], x, strict)| ==
            |Chosen(latencies, before, x, strict)| + if Counted(x, strict, latencies[last]) then 1 else 0
  {
    var one := if Counted(x, strict, latencies[last]) then {last} else {};
    assert Chosen(latencies, before + [last], x, strict) == Chosen(latencies, before, x, strict) + one;
  }

  lemma SampleNames(latencies: map<string, real>, names: seq<string>, y: real) returns (n: string)
    requires y in Samples(latencies, names)
    ensures n in Measured(latencies, names) && latencies[n] == y
  {
    n :| n in names && Sample(latencies, n) == Some(y);
  }

  lemma NamedSample(latencies: map<string, real>, names: seq<string>, n: string)
    requires n in Measured(latencies, names)
    ensures latencies[n] in Samples(latencies, names)
  {
    var f := n => Sample(latencies, n);
    assert f(n) == Some(latencies[n]);
    assert f(n).value in FilterMap(f, names);
  }

  lemma SortedHolds(latencies: map<string, real>, names: seq<string>)
    ensures Sorted(RealLess, SortedSamples(latencies, names))
    ensures multiset(SortedSamples(latencies, names)) == multiset(Samples(latencies, names))
    ensures forall y :: y in SortedSamples(latencies, names) <==> y in Samples(latencies, names)
  {
    RealLessOrders();
    SortSorted(RealLess, Samples(latencies, names));
    SortPermutes(RealLess, Samples(latencies, names));
    forall y ensures y in SortedSamples(latencies, names) <==> y in Samples(latencies, names) {
      SortMember(RealLess, Samples(latencies, names), y);
    }
  }

  lemma ShareUpTo(latencies: map<string, real>, names: seq<string>, i: nat)
    requires NoDuplicates(names) && i < |SortedSamples(latencies, names)|
    ensures var x := SortedSamples(latencies, names)[i];
            && |NotAbove(latencies, Measured(latencies, names), x)| >= i + 1
            && |Below(latencies, Measured(latencies, names), x)| <= i
  {
    var s := SortedSamples(latencies, names);
    SortedHolds(latencies, names);
    CountsAt(s, i);
    CountPermuted(s, Samples(latencies, names), s[i], false);
    CountPermuted(s, Samples(latencies, names), s[i], true);
    CountNames(latencies, names, s[i], false);
    CountNames(latencies, names, s[i], true);
    assert Chosen(latencies, names, s[i], false) == NotAbove(latencies, Measured(latencies, names), s[i]);
    assert Chosen(latencies, names, s[i], true) == Below(latencies, Measured(latencies, names), s[i]);
  }

  lemma Extremes(latencies: map<string, real>, names: seq<string>, n: string)
    requires n in Measured(latencies, names)
    ensures var s := SortedSamples(latencies, names);
            s != [] && s[0] <= latencies[n] <= s[|s| - 1]
  {
    var s := SortedSamples(latencies, names);
    SortedHolds(latencies, names);
    NamedSample(latencies, names, n);
    var k :| 0 <= k < |s| && s[k] == latencies[n];
  }

  lemma ProfileIsProfile(latencies: map<string, real>, names: seq<string>, missing: int)
    requires NoDuplicates(names) && Samples(latencies, names) != []
    ensures IsProfile(latencies, Measured(latencies, names), missing,
                      Charged(ProfileOf(SortedSamples(latencies, names)), missing))
    ensures |Samples(latencies, names)| == |Measured(latencies, names)|
  {
    var s := SortedSamples(latencies, names);
    var i := Percentile95Index(|s|);
    SortedHolds(latencies, names);
    assert s[0] in s && s[i] in s && s[|s| - 1] in s;
    var lo := SampleNames(latencies, names, s[0]);
    var v := SampleNames(latencies, names, s[i]);
    var hi := SampleNames(latencies, names, s[|s| - 1]);
    forall n | n in Measured(latencies, names) ensures latencies[lo] <= latencies[n] <= latencies[hi] {
      Extremes(latencies, names, n);
    }
    ShareUpTo(latencies, names, i);
    CountNames(latencies, names, 0.0, false);
    assert ProfileAt(latencies, Measured(latencies, names), lo, v, hi);
    assert ProfileOf(s) == latencies[v] + (latencies[hi] - latencies[lo]) / 10.0;
  }

  /** The scheduler's estimate: the profile of what was measured, and 300 ms for each required exchange that was not. */
  lemma EstimateMeans(profileMs: real, latencies: map<string, real>, required: seq<string>)
    requires NoDuplicates(required)
    ensures var measured, estimate := Measured(latencies, required), TaskEstimate(profileMs, latencies, required);
            && (required == [] ==> estimate == if profileMs > 0.0 then profileMs else 5000.0)
            && (required != [] && measured == {} ==> estimate == 5000.0 + |required| as real * 300.0)
            && (measured != {} ==> IsProfile(latencies, measured, |required| - |measured|, estimate))
  {
    CountNames(latencies, required, 0.0, false);
    if Samples(latencies, required) != [] {
      ProfileIsProfile(latencies, required, |required| - |Measured(latencies, required)|);
      EstimateIsCharged(profileMs, latencies, required);
    }
  }

  lemma EstimateIsCharged(profileMs: real, latencies: map<string, real>, required: seq<string>)
    requires Samples(latencies, required) != []
    ensures TaskEstimate(profileMs, latencies, required) ==
            Charged(ProfileOf(SortedSamples(latencies, required)), |required| - |Samples(latencies, required)|)
  {
  }

  method EstimateForTask(profileMs: real, latencies: map<string, real>, required: seq<string>) returns (estimate: real)
    ensures estimate == TaskEstimate(profileMs, latencies, required)
    ensures NoDuplicates(required) && Measured(latencies, required) != {} ==>
              IsProfile(latencies, Measured(latencies, required), |required| - |Measured(latencies, required)|,
                        estimate)
    ensures required == [] ==> estimate == if profileMs > 0.0 then profileMs else 5000.0
  {
    ghost var distinct := NoDuplicates(required);
    if distinct {
      EstimateMeans(profileMs, latencies, required);
    }
    if |required| == 0 {
      return if profileMs > 0.0 then profileMs else MISSING_PROFILE_PENALTY;
    }
    ghost var f := n => Sample(latencies, n);
    if |latencies| == 0 {
      NothingUsable(latencies, required);
      return MISSING_PROFILE_PENALTY + |required| as real * MISSING_EXCHANGE_PENALTY;
    }
    var found: seq<real> := [];
    var missingCount := 0;
    for i := 0 to |required|
      invariant found == Samples(latencies, required[..i])
      invariant missingCount + |found| == i
    {
      var ex := required[i];
      assert required[..i + 1] == required[..i] + [ex];
      FilterMapAppend(f, required[..i], ex);
      if ex !in latencies {
        missingCount := missingCount + 1;
        continue;
      }
      if latencies[ex] < 0.0 {
        missingCount := missingCount + 1;
        continue;
      }
      found := found + [latencies[ex]];
    }
    assert required[..|required|] == required;
    if |found| == 0 {
      return MISSING_PROFILE_PENALTY + |required| as real * MISSING_EXCHANGE_PENALTY;
    }
    var sorted := SortReals(found);
    estimate := ProfileOf(sorted);
    if missingCount > 0 {
      estimate := estimate + missingCount as real * MISSING_EXCHANGE_PENALTY;
    }
  }

  lemma {:induction false} NothingUsable(latencies: map<string, real>, names: seq<string>)
    requires forall n :: n in names ==> !Usable(latencies, n)
    ensures Samples(latencies, names) == []
  {
    if names != [] {
      NothingUsable(latencies, names[..|names| - 1]);
    }
  }

  method SortReals(values: seq<real>) returns (sorted: seq<real>)
    ensures sorted == Sort(RealLess, values)
    ensures |sorted| == |values|
  {
    var a := new real[|values|](i requires 0 <= i < |values| => values[i]);
    assert a[..] == values;
    SortInPlace(a, RealLess);
    SortPermutes(RealLess, values);
    sorted := a[..];
  }

  predicate NonNegative(latencies: map<string, real>) {
    forall n :: n in latencies ==> latencies[n] >= 0.0
  }

  lemma SamplesWithout(latencies: map<string, real>, t: seq<string>, k: nat)
    requires k < |t| && Usable(latencies, t[k])
    ensures multiset(Samples(latencies, t)) ==
            multiset(Samples(latencies, t[..k] + t[k + 1..])) + multiset{latencies[t[k]]}
  {
    var f := n => Sample(latencies, n);
    var a, z, b := t[..k], t[k], t[k + 1..];
    assert t == a + [z] + b;
    FilterMapConcat(f, a, b);
    FilterMapConcat(f, a + [z], b);
    FilterMapAppend(f, a, z);
  }

  lemma WithoutMembers(t: seq<string>, k: nat)
    requires NoDuplicates(t) && k < |t|
    ensures NoDuplicates(t[..k] + t[k + 1..])
    ensures forall n :: n in t[..k] + t[k + 1..] <==> n in t && n != t[k]
  {
    forall n | n in t && n != t[k] ensures n in t[..k] + t[k + 1..] {
      var i :| 0 <= i < |t| && t[i] == n;
      assert i < k ==> t[..k][i] == n;
      assert i > k ==> t[k + 1..][i - k - 1] == n;
    }
  }

  /** Two lists that name the same usable exchanges yield the same values, whatever the order. */
  lemma {:induction false} SamplesOrderIrrelevant(latencies: map<string, real>, s: seq<string>, t: seq<string>)
    requires NoDuplicates(s) && NoDuplicates(t)
    requires forall n :: Usable(latencies, n) ==> (n in s <==> n in t)
    ensures multiset(Samples(latencies, s)) == multiset(Samples(latencies, t))
  {
    if s == [] {
      NothingUsable(latencies, t);
    } else {
      var n := |s| - 1;
      WithoutMembers(s, n);
      assert s[..n] + s[n + 1..] == s[..n];
      if !Usable(latencies, s[n]) {
        SamplesOrderIrrelevant(latencies, s[..n], t);
      } else {
        var k :| 0 <= k < |t| && t[k] == s[n];
        SamplesWithout(latencies, s, n);
        SamplesWithout(latencies, t, k);
        WithoutMembers(t, k);
        SamplesOrderIrrelevant(latencies, s[..n], t[..k] + t[k + 1..]);
      }
    }
  }

  lemma SortedSamplesOrderIrrelevant(latencies: map<string, real>, s: seq<string>, t: seq<string>)
    requires NoDuplicates(s) && NoDuplicates(t)
    requires forall n :: Usable(latencies, n) ==> (n in s <==> n in t)
    ensures SortedSamples(latencies, s) == SortedSamples(latencies, t)
  {
    SamplesOrderIrrelevant(latencies, s, t);
    var u, v := Samples(latencies, s), Samples(latencies, t);
    RealLessOrders();
    SortSorted(RealLess, u);
    SortSorted(RealLess, v);
    SortPermutes(RealLess, u);
    SortPermutes(RealLess, v);
    SortedUnique(RealLess, Sort(RealLess, u), Sort(RealLess, v));
  }

  lemma SameSamples(latencies: map<string, real>, s: seq<string>, t: seq<string>)
    requires NoDuplicates(s) && NoDuplicates(t)
    requires forall n :: Usable(latencies, n) ==> (n in s <==> n in t)
    ensures SortedSamples(latencies, s) == SortedSamples(latencies, t)
    ensures |Samples(latencies, s)| == |Samples(latencies, t)| <= |t|
  {
    SortedSamplesOrderIrrelevant(latencies, s, t);
    SamplesCount(latencies, t);
    assert |SortedSamples(latencies, s)| == |SortedSamples(latencies, t)|;
  }

  /**
   buildLatencyProfileFromLatencyMap. The keys are visited in any order, as Go's
   map iteration allows. For non-negative latencies the result is the scheduler's
   estimate with the same list required, plus one missing-exchange penalty for
   every repeat (or empty name) in the list.
   */
  method HandlerProfile(latencies: map<string, real>, effective: seq<string>) returns (profile: real, ok: bool)
    ensures ok <==> exists n :: n in latencies && (effective == [] || n in effective)
    ensures !ok ==> profile == 0.0
    ensures ok && effective != [] && NonNegative(latencies) && "" !in latencies ==>
              profile == TaskEstimate(0.0, latencies, Distinct(effective))
                         + (|effective| - |Distinct(effective)|) as real * MISSING_EXCHANGE_PENALTY
    ensures ok && effective != [] && NonNegative(latencies) && "" !in latencies ==>
              (profile == TaskEstimate(0.0, latencies, Distinct(effective))
               <==> NoDuplicates(effective) && "" !in effective)
    ensures ok && effective == [] && NonNegative(latencies) ==>
              forall names :: NoDuplicates(names) && (forall n :: n in names <==> n in latencies) ==>
                Samples(latencies, names) != [] && profile == ProfileOf(SortedSamples(latencies, names))
  {
    if |latencies| == 0 {
      return 0.0, false;
    }
    var values;
    ghost var visited;
    values, visited := CollectListed(latencies, effective);
    if |values| == 0 {
      assert forall n :: n in latencies && (effective == [] || n in effective) ==> n in visited;
      return 0.0, false;
    }
    assert visited[0] in visited;
    var sorted := SortReals(values);
    profile := ProfileOf(sorted);
    if |effective| > 0 {
      var coveragePenalty := (|effective| - |values|) as real * MISSING_EXCHANGE_PENALTY;
      if coveragePenalty > 0.0 {
        profile := profile + coveragePenalty;
      }
    }
    ok := true;
    if NonNegative(latencies) {
      if effective != [] {
        if "" !in latencies {
          SameSamples(latencies, visited, Distinct(effective));
        }
      } else {
        forall names | NoDuplicates(names) && (forall n :: n in names <==> n in latencies)
          ensures Samples(latencies, names) != [] && profile == ProfileOf(SortedSamples(latencies, names))
        {
          SameSamples(latencies, visited, names);
        }
      }
    }
  }

  /** The measured exchanges a profile is about; an empty list stands for all of them. */
  function Listed(latencies: map<string, real>, effective: seq<string>): (r: set<string>)
    ensures r <= latencies.Keys
  {
    set n | n in latencies && (effective == [] || n in effective)
  }

  /** The loop over the map: one value for every listed key, in the order visited. */
  method CollectListed(latencies: map<string, real>, effective: seq<string>)
    returns (values: seq<real>, ghost visited: seq<string>)
    ensures NoDuplicates(visited) && |values| == |visited|
    ensures forall n :: n in visited <==> n in latencies && (effective == [] || n in effective)
    ensures NonNegative(latencies) ==> values == Samples(latencies, visited)
  {
    var filter: set<string> := {};
    for i := 0 to |effective|
      invariant filter == set n | n in effective[..i]
    {
      filter := filter + {effective[i]};
    }
    assert effective[..|effective|] == effective;
    values, visited := [], [];
    var pending := latencies.Keys;
    ghost var f := n => Sample(latencies, n);
    while pending != {}
      invariant pending <= latencies.Keys
      invariant NoDuplicates(visited)
      invariant forall n :: n in visited <==> n in latencies && n !in pending && (effective == [] || n in effective)
      invariant |values| == |visited|
      invariant NonNegative(latencies) ==> values == Samples(latencies, visited)
      decreases pending
    {
      var exchange :| exchange in pending;
      pending := pending - {exchange};
      if |filter| > 0 && exchange !in filter {
        assert effective != [];
        continue;
      }
      assert effective == [] || exchange in effective by {
        if effective != [] {
          assert effective[0] in filter;
        }
      }
      FilterMapAppend(f, visited, exchange);
      visited := visited + [exchange];
      values := values + [latencies[exchange]];
    }
  }

  /** Some order of a set; Go's map iteration picks one. */
  ghost function Listing(names: set<string>): (r: seq<string>)
    ensures NoDuplicates(r) && forall n :: n in r <==> n in names
    decreases names
  {
    if names == {} then []
    else
      var n :| n in names;
      [n] + Listing(names - {n})
  }

  lemma ListedSamples(latencies: map<string, real>, names: seq<string>)
    requires names != [] && Usable(latencies, names[|names| - 1])
    ensures Samples(latencies, names) != []
  {
  }

  /** What HandlerProfile computes, as a function of the two arguments only. */
  ghost function ProfileFor(latencies: map<string, real>, effective: seq<string>): Option<real>
    requires NonNegative(latencies)
  {
    if !(exists n :: n in latencies && (effective == [] || n in effective)) then None
    else if effective != [] then
      var repeats := |effective| - |Distinct(effective)|;
      Some(TaskEstimate(0.0, latencies, Distinct(effective)) + repeats as real * MISSING_EXCHANGE_PENALTY)
    else
      var names := Listing(latencies.Keys);
      assert names != [] by {
        var n :| n in latencies;
        assert n in names;
      }
      assert names[|names| - 1] in names;
      ListedSamples(latencies, names);
      Some(ProfileOf(SortedSamples(latencies, names)))
  }

  /**
   The handler's profile, whatever the order of the map: that of the listed exchanges
   with a latency, and 300 ms for each place in the list that none of them takes.
   */
  lemma HandlerMeans(latencies: map<string, real>, effective: seq<string>)
    requires NonNegative(latencies) && "" !in latencies
    ensures var measured := Listed(latencies, effective);
            && (ProfileFor(latencies, effective).Some? <==> measured != {})
            && (measured != {} ==>
                  var missing := if effective == [] then 0 else |effective| - |measured|;
                  IsProfile(latencies, measured, missing, ProfileFor(latencies, effective).value))
  {
    var measured := Listed(latencies, effective);
    assert forall n :: n in measured <==> n in latencies && (effective == [] || n in effective);
    if measured != {} {
      if effective == [] {
        var names := Listing(latencies.Keys);
        assert Measured(latencies, names) == measured;
        AllProfile(latencies, names);
      } else {
        ListedProfile(latencies, effective);
      }
    }
  }

  lemma AllProfile(latencies: map<string, real>, names: seq<string>)
    requires NonNegative(latencies) && names == Listing(latencies.Keys) && latencies != map[]
    ensures Samples(latencies, names) != []
    ensures IsProfile(latencies, Measured(latencies, names), 0, ProfileFor(latencies, []).value)
  {
    var n :| n in latencies;
    assert n in names && names[|names| - 1] in names;
    ListedSamples(latencies, names);
    ProfileIsProfile(latencies, names, 0);
    assert ProfileFor(latencies, []) == Some(ProfileOf(SortedSamples(latencies, names)));
  }

  lemma ListedProfile(latencies: map<string, real>, effective: seq<string>)
    requires NonNegative(latencies) && "" !in latencies && effective != [] && Listed(latencies, effective) != {}
    ensures IsProfile(latencies, Listed(latencies, effective), |effective| - |Listed(latencies, effective)|,
                      ProfileFor(latencies, effective).value)
  {
    var names, measured := Distinct(effective), Listed(latencies, effective);
    assert Measured(latencies, names) == measured;
    var n :| n in measured;
    assert n in names && n in latencies && n in effective;
    CountNames(latencies, names, 0.0, false);
    ProfileIsProfile(latencies, names, |effective| - |measured|);
    EstimateIsCharged(0.0, latencies, names);
    ChargedTwice(ProfileOf(SortedSamples(latencies, names)), |effective|, |names|, |measured|);
  }

  lemma ChargedTwice(profile: real, listed: int, distinct: int, measured: int)
    ensures Charged(profile, distinct - measured) + (listed - distinct) as real * MISSING_EXCHANGE_PENALTY ==
            Charged(profile, listed - measured)
  {
  }

  /** No more exchanges are measured than the list has places. */
  lemma {:induction false} NamesBound(names: set<string>, list: seq<string>)
    requires forall n :: n in names ==> list == [] || n in list
    ensures list != [] ==> |names| <= |list|
  {
    if list != [] {
      var before, last := list[..|list| - 1], list[|list| - 1];
      assert list == before + [last];
      var rest := names - {last};
      assert names <= rest + {last};
      if before == [] {
        assert rest == {};
      } else {
        NamesBound(rest, before);
      }
      assert |names| <= |rest| + 1 by {
        assert names == rest || names == rest + {last};
      }
    }
  }

  lemma OneSample(latencies: map<string, real>, name: string)
    requires Usable(latencies, name)
    ensures Samples(latencies, [name]) == SortedSamples(latencies, [name]) == [latencies[name]]
  {
    assert [name][..0] == [] && [name] == [] + [name];
    FilterMapAppend(n => Sample(latencies, n), [], name);
    var v := latencies[name];
    assert Samples(latencies, [name]) == [v];
    assert [v][..0] == [];
    assert Sort(RealLess, [v]) == Insert(RealLess, [], v) == [v];
  }

  lemma TwiceIsOnce(name: string)
    requires name != ""
    ensures Distinct([name, name]) == [name] == Distinct([name])
  {
    assert [name, name][..1] == [name] && [name][..0] == [];
  }

  /** One exchange listed twice: the handler charges it as missing once, the scheduler does not. */
  lemma RepeatCosts(name: string, latency: real)
    requires name != "" && latency >= 0.0
    ensures ProfileFor(map[name := latency], [name, name]) == Some(latency + MISSING_EXCHANGE_PENALTY)
    ensures TaskEstimate(0.0, map[name := latency], Distinct([name, name])) == latency
  {
    var latencies := map[name := latency];
    OneSample(latencies, name);
    TwiceIsOnce(name);
    assert ProfileOf([latency]) == latency;
    assert name in latencies && name in [name, name];
  }

  method ComputeProfile(latencies: map<string, real>, effective: seq<string>) returns (profile: real, ok: bool)
    requires NonNegative(latencies) && "" !in latencies
    ensures ok <==> ProfileFor(latencies, effective).Some?
    ensures ok ==> profile == ProfileFor(latencies, effective).value
    ensures ok ==> IsProfile(latencies, Listed(latencies, effective),
                             if effective == [] then 0 else |effective| - |Listed(latencies, effective)|, profile)
  {
    profile, ok := HandlerProfile(latencies, effective);
    HandlerMeans(latencies, effective);
  }
}
