/**
 The fixed-window counters: inbound frames per connection and unknown actions
 (internal/api/ws/handler.go), and requests per client address
 (internal/api/middleware/rate_limit.go). One counter, three rules, one bound
 for arbitrary intervals of time. Times are nanoseconds.
 */
module FixedWindow {
  import opened Sequences

  datatype Window = Window(start: int, count: nat)

  /** strict: the window is renewed only after its end, not at it. */
  datatype Rule = Rule(limit: nat, length: int, strict: bool)

  predicate Renews(r: Rule, w: Window, now: int) {
    if r.strict then now > w.start + r.length else now - w.start >= r.length
  }

  /** Counts one event; an absent window starts with it. */
  function Tick(r: Rule, w: Option<Window>, now: int): Window {
    if w.None? || Renews(r, w.value, now) then Window(now, 1) else Window(w.value.start, w.value.count + 1)
  }

  predicate Admits(r: Rule, w: Window) {
    w.count <= r.limit
  }

  ghost predicate Ordered(times: seq<int>) {
    forall i, j :: 0 <= i < j < |times| ==> times[i] <= times[j]
  }

  /** How many of the events in [from, to) are admitted. */
  function Admitted(r: Rule, w: Option<Window>, times: seq<int>, from: int, to: int): nat
    decreases |times|
  {
    if times == [] then 0
    else
      var next := Tick(r, w, times[0]);
      (if from <= times[0] < to && Admits(r, next) then 1 else 0) + Admitted(r, Some(next), times[1..], from, to)
  }

  /** Windows of the given length needed to cover a span. */
  function Windows(span: int, length: int): nat
    requires length > 0
    decreases if span > 0 then span else 0
  {
    if span <= 0 then 0 else 1 + Windows(span - length, length)
  }

  /** That is span / length rounded up. */
  lemma {:induction false} WindowsIsCeiling(span: int, length: int)
    requires length > 0
    ensures span <= length * Windows(span, length)
    ensures span > 0 ==> length * Windows(span, length) < span + length
    decreases if span > 0 then span else 0
  {
    if span > 0 {
      WindowsIsCeiling(span - length, length);
      assert length * Windows(span, length) == length + length * Windows(span - length, length);
    }
  }

  lemma {:induction false} WindowsMonotone(s: int, t: int, length: int)
    requires length > 0 && s <= t
    ensures Windows(s, length) <= Windows(t, length)
    decreases if t > 0 then t else 0
  {
    if s > 0 {
      WindowsMonotone(s - length, t - length, length);
    }
  }

  function Max(x: int, y: int): int {
    if x > y then x else y
  }

  /** What is left of the current window, plus full windows after it. */
  function Capacity(r: Rule, w: Window, from: int, to: int): int
    requires r.length > 0
  {
    (if w.count < r.limit then r.limit - w.count else 0)
    + r.limit * Windows(to - Max(w.start + r.length, from), r.length)
  }

  /** Once all events are inside, no more than the capacity is admitted. */
  lemma {:induction false} BoundInside(r: Rule, w: Window, times: seq<int>, from: int, to: int)
    requires r.length > 0 && Ordered(times)
    requires forall i :: 0 <= i < |times| ==> from <= times[i]
    ensures Admitted(r, Some(w), times, from, to) <= Capacity(r, w, from, to)
    decreases |times|
  {
    CapacityIsNat(r, w, from, to);
    if times != [] {
      var t := times[0];
      BoundInside(r, Tick(r, Some(w), t), times[1..], from, to);
      if !Renews(r, w, t) {
        assert Tick(r, Some(w), t) == Window(w.start, w.count + 1);
      } else if t < to {
        CapacityRenewed(r, w, t, from, to);
      } else {
        NothingLeft(r, Window(t, 1), times[1..], from, to);
      }
    }
  }

  lemma CapacityIsNat(r: Rule, w: Window, from: int, to: int)
    requires r.length > 0
    ensures Capacity(r, w, from, to) >= 0
  {
    var n := Windows(to - Max(w.start + r.length, from), r.length);
    assert r.limit * n >= 0;
  }

  /** Renewing a window inside the interval costs the event that renews it. */
  lemma CapacityRenewed(r: Rule, w: Window, t: int, from: int, to: int)
    requires r.length > 0 && Renews(r, w, t) && from <= t < to
    ensures Capacity(r, Window(t, 1), from, to) + (if r.limit >= 1 then 1 else 0) <= Capacity(r, w, from, to)
  {
    var rest, span := to - Max(t + r.length, from), to - Max(w.start + r.length, from);
    WindowsMonotone(rest, span - r.length, r.length);
    FewerWindows(r.limit, Windows(rest, r.length), Windows(span, r.length));
  }

  lemma FewerWindows(limit: nat, m: nat, n: nat)
    requires m + 1 <= n
    ensures limit * m + limit <= limit * n
  {
    var k: nat := n - m - 1;
    assert limit * n == limit * (m + 1 + k) == limit * m + limit + limit * k;
  }

  lemma {:induction false} NothingLeft(r: Rule, w: Window, times: seq<int>, from: int, to: int)
    requires forall i :: 0 <= i < |times| ==> to <= times[i]
    ensures Admitted(r, Some(w), times, from, to) == 0
    decreases |times|
  {
    if times != [] {
      NothingLeft(r, Tick(r, Some(w), times[0]), times[1..], from, to);
    }
  }

  /**
   Any half-open interval of length d admits at most limit * (ceil(d / length) + 1)
   events, wherever it lies relative to the windows.
   */
  lemma {:induction false} BoundAnywhere(r: Rule, w: Option<Window>, times: seq<int>, from: int, d: nat)
    requires r.length > 0 && Ordered(times)
    ensures Admitted(r, w, times, from, from + d) <= r.limit * (Windows(d, r.length) + 1)
    decreases |times|
  {
    if times == [] {
      assert r.limit * (Windows(d, r.length) + 1) >= 0;
    } else if times[0] < from {
      BoundAnywhere(r, Some(Tick(r, w, times[0])), times[1..], from, d);
    } else {
      assert forall i :: 0 <= i < |times| ==> from <= times[i];
      assert r.limit * (Windows(d, r.length) + 1) == r.limit * Windows(d, r.length) + r.limit;
      if w.Some? {
        BoundInside(r, w.value, times, from, from + d);
        SpanBound(r, from, d, w.value.start + r.length);
      } else {
        var t := times[0];
        BoundInside(r, Window(t, 1), times[1..], from, from + d);
        if t < from + d {
          SpanBound(r, from, d, t + r.length);
        } else {
          NothingLeft(r, Window(t, 1), times[1..], from, from + d);
          assert r.limit * Windows(d, r.length) >= 0;
        }
      }
    }
  }

  lemma SpanBound(r: Rule, from: int, d: nat, next: int)
    requires r.length > 0
    ensures r.limit * Windows(from + d - Max(next, from), r.length) <= r.limit * Windows(d, r.length)
  {
    var m, n := Windows(from + d - Max(next, from), r.length), Windows(d, r.length);
    WindowsMonotone(from + d - Max(next, from), d, r.length);
    assert r.limit * (n - m) >= 0;
    assert r.limit * (n - m) == r.limit * n - r.limit * m;
  }

  /** In particular never more than twice the limit in one window length. */
  lemma TwiceTheLimit(r: Rule, w: Option<Window>, times: seq<int>, from: int)
    requires r.length > 0 && Ordered(times)
    ensures Admitted(r, w, times, from, from + r.length) <= 2 * r.limit
  {
    BoundAnywhere(r, w, times, from, r.length);
    assert Windows(r.length, r.length) == 1;
  }

  // ---- What is admitted --------------------------------------------------------

  /** The window after counting every event. */
  function After(r: Rule, w: Window, times: seq<int>): Window
    decreases |times|
  {
    if times == [] then w else After(r, Tick(r, Some(w), times[0]), times[1..])
  }

  lemma {:induction false} OneMoreEvent(r: Rule, w: Window, times: seq<int>, t: int, from: int, to: int)
    ensures After(r, w, times + [t]) == Tick(r, Some(After(r, w, times)), t)
    ensures Admitted(r, Some(w), times + [t], from, to) ==
            Admitted(r, Some(w), times, from, to)
            + if from <= t < to && Admits(r, Tick(r, Some(After(r, w, times)), t)) then 1 else 0
    decreases |times|
  {
    var all := times + [t];
    if times == [] {
      assert all[1..] == [];
    } else {
      assert all[1..] == times[1..] + [t] && all[0] == times[0];
      OneMoreEvent(r, Tick(r, Some(w), times[0]), times[1..], t, from, to);
    }
  }

  /** The events counted in the present window are the latest ones, none before its start. */
  ghost predicate CountsLatest(r: Rule, w: Window, times: seq<int>) {
    && w.count <= |times|
    && (forall k :: |times| - w.count <= k < |times| ==> w.start <= times[k])
    && (times != [] ==> w.start <= times[|times| - 1] && !Renews(r, w, times[|times| - 1]))
  }

  lemma {:induction false} LatestCounted(r: Rule, start: int, times: seq<int>)
    requires r.length > 0 && Ordered(times) && forall i :: 0 <= i < |times| ==> start <= times[i]
    ensures CountsLatest(r, After(r, Window(start, 0), times), times)
    ensures start <= After(r, Window(start, 0), times).start
  {
    if times != [] {
      var before, t := times[..|times| - 1], times[|times| - 1];
      assert times == before + [t];
      LatestCounted(r, start, before);
      OneMoreEvent(r, Window(start, 0), before, t, 0, 0);
      LatestStep(r, After(r, Window(start, 0), before), before, t);
    }
  }

  lemma LatestStep(r: Rule, w: Window, times: seq<int>, t: int)
    requires r.length > 0 && CountsLatest(r, w, times) && w.start <= t
    ensures CountsLatest(r, Tick(r, Some(w), t), times + [t])
  {
    var next := Tick(r, Some(w), t);
    forall k | |times| + 1 - next.count <= k < |times| + 1 ensures next.start <= (times + [t])[k] {
    }
  }

  /** Whether an interval is longer than the window, or as long where that renews it. */
  predicate Apart(r: Rule, earlier: int, later: int) {
    if r.strict then later - earlier > r.length else later - earlier >= r.length
  }

  /** A refusal has a cause: as many earlier events as the limit, all within one window length. */
  lemma RefusedAfterLimit(r: Rule, start: int, times: seq<int>, t: int)
    requires r.length > 0 && Ordered(times + [t])
    requires forall i :: 0 <= i < |times + [t]| ==> start <= (times + [t])[i]
    requires !Admits(r, Tick(r, Some(After(r, Window(start, 0), times)), t))
    ensures r.limit <= |times| && !Apart(r, (times + [t])[|times| - r.limit], t)
  {
    var all := times + [t];
    LatestCounted(r, start, all);
    OneMoreEvent(r, Window(start, 0), times, t, 0, 0);
    var w := After(r, Window(start, 0), all);
    assert w.count > r.limit && w.start <= all[|times| - r.limit];
  }

  lemma AdmittedWhenApart(r: Rule, start: int, times: seq<int>, t: int)
    requires r.length > 0 && Ordered(times + [t])
    requires forall i :: 0 <= i < |times + [t]| ==> start <= (times + [t])[i]
    requires r.limit <= |times| ==> Apart(r, (times + [t])[|times| - r.limit], t)
    ensures Admits(r, Tick(r, Some(After(r, Window(start, 0), times)), t))
  {
    if !Admits(r, Tick(r, Some(After(r, Window(start, 0), times)), t)) {
      RefusedAfterLimit(r, start, times, t);
    }
  }

  /** Any limit + 1 consecutive events span more than a window. */
  ghost predicate Sparse(r: Rule, times: seq<int>) {
    forall i :: r.limit <= i < |times| ==> Apart(r, times[i - r.limit], times[i])
  }

  function CountIn(times: seq<int>, from: int, to: int): nat {
    if times == [] then 0
    else CountIn(times[..|times| - 1], from, to) + if from <= times[|times| - 1] < to then 1 else 0
  }

  /** Sparse events are all admitted. */
  lemma {:induction false} SparseAreAdmitted(r: Rule, start: int, times: seq<int>, from: int, to: int)
    requires r.length > 0 && Ordered(times) && Sparse(r, times)
    requires forall i :: 0 <= i < |times| ==> start <= times[i]
    ensures Admitted(r, Some(Window(start, 0)), times, from, to) == CountIn(times, from, to)
  {
    if times != [] {
      var before, t := times[..|times| - 1], times[|times| - 1];
      assert times == before + [t];
      assert Sparse(r, before) by {
        forall i | r.limit <= i < |before| ensures Apart(r, before[i - r.limit], before[i]) {
          assert Apart(r, times[i - r.limit], times[i]);
        }
      }
      SparseAreAdmitted(r, start, before, from, to);
      OneMoreEvent(r, Window(start, 0), before, t, from, to);
      AdmittedWhenApart(r, start, before, t);
    }
  }

  // ---- Requests per client address -------------------------------------

  datatype Request = Request(ip: string, now: int)

  function WindowOf(windows: map<string, Window>, ip: string): Option<Window> {
    if ip in windows then Some(windows[ip]) else None
  }

  function IpRule(allowed: nat): Rule {
    Rule(allowed, 1_000_000_000, true)
  }

  class IpRateLimiter {
    const allowed: nat
    var windows: map<string, Window>

    constructor (requestsPerSecond: int, burst: int)
      ensures windows == map[]
      ensures requestsPerSecond + burst <= 0 ==> allowed == 1
      ensures requestsPerSecond + burst > 0 ==> allowed == requestsPerSecond + burst
    {
      var sum := requestsPerSecond + burst;
      if sum <= 0 {
        sum := 1;
      }
      allowed := sum;
      windows := map[];
    }

    method Handle(request: Request) returns (passed: bool, remaining: nat)
      modifies this`windows
      ensures var w := Tick(IpRule(allowed), WindowOf(old(windows), request.ip), request.now);
              && windows == old(windows)[request.ip := w]
              && passed == Admits(IpRule(allowed), w)
              && remaining == if passed then allowed - w.count else 0
    {
      var w := Window(request.now, 0);
      if request.ip in windows && !(request.now > windows[request.ip].start + 1_000_000_000) {
        w := windows[request.ip];
      }
      w := w.(count := w.count + 1);
      windows := windows[request.ip := w];
      remaining := if allowed < w.count then 0 else allowed - w.count;
      passed := w.count <= allowed;
    }
  }

  /** Requests of one address that a run of the limiter admits in [from, to). */
  function AdmittedFor(rule: Rule, windows: map<string, Window>, requests: seq<Request>, ip: string,
                       from: int, to: int): nat
    decreases |requests|
  {
    if requests == [] then 0
    else
      var q := requests[0];
      var w := Tick(rule, WindowOf(windows, q.ip), q.now);
      (if q.ip == ip && from <= q.now < to && Admits(rule, w) then 1 else 0)
      + AdmittedFor(rule, windows[q.ip := w], requests[1..], ip, from, to)
  }

  function TimesOf(requests: seq<Request>, ip: string): seq<int> {
    if requests == [] then []
    else (if requests[0].ip == ip then [requests[0].now] else []) + TimesOf(requests[1..], ip)
  }

  /** Other addresses have no influence: a client sees its own fixed window. */
  lemma {:induction false} AddressesIndependent(rule: Rule, windows: map<string, Window>, requests: seq<Request>,
                                                ip: string, from: int, to: int)
    ensures AdmittedFor(rule, windows, requests, ip, from, to) ==
            Admitted(rule, WindowOf(windows, ip), TimesOf(requests, ip), from, to)
    decreases |requests|
  {
    if requests != [] {
      var q := requests[0];
      var w := Tick(rule, WindowOf(windows, q.ip), q.now);
      AddressesIndependent(rule, windows[q.ip := w], requests[1..], ip, from, to);
      var rest := TimesOf(requests[1..], ip);
      if q.ip == ip {
        assert TimesOf(requests, ip) == [q.now] + rest;
        assert ([q.now] + rest)[1..] == rest;
      } else {
        assert TimesOf(requests, ip) == rest;
      }
    }
  }

  lemma {:induction false} TimesOrdered(requests: seq<Request>, ip: string)
    requires forall i, j :: 0 <= i < j < |requests| ==> requests[i].now <= requests[j].now
    ensures Ordered(TimesOf(requests, ip))
    ensures requests != [] ==> forall t :: t in TimesOf(requests, ip) ==> requests[0].now <= t
  {
    if requests != [] {
      TimesOrdered(requests[1..], ip);
      var rest := TimesOf(requests[1..], ip);
      forall k | 0 <= k < |rest| ensures requests[0].now <= rest[k] {
        assert rest[k] in rest;
        assert requests[1..] != [] ==> requests[1..][0] == requests[1];
      }
    }
  }

  /**
   A client that never sends more than the allowance within one second is never
   refused, whatever the others send: every request of it is admitted.
   */
  lemma SparseClientPasses(allowed: nat, requests: seq<Request>, ip: string, from: int, to: int)
    requires forall i, j :: 0 <= i < j < |requests| ==> requests[i].now <= requests[j].now
    requires var times := TimesOf(requests, ip);
             forall i :: allowed <= i < |times| ==> times[i] - times[i - allowed] > 1_000_000_000
    ensures AdmittedFor(IpRule(allowed), map[], requests, ip, from, to) == CountIn(TimesOf(requests, ip), from, to)
  {
    var r, times := IpRule(allowed), TimesOf(requests, ip);
    AddressesIndependent(r, map[], requests, ip, from, to);
    TimesOrdered(requests, ip);
    if times != [] {
      SparseAreAdmitted(r, times[0], times, from, to);
      assert Tick(r, None, times[0]) == Tick(r, Some(Window(times[0], 0)), times[0]);
    }
  }

  /** Per address, any interval of length d admits at most allowed * (ceil(d / 1s) + 1) requests. */
  lemma PerAddressBound(allowed: nat, requests: seq<Request>, ip: string, from: int, d: nat)
    requires forall i, j :: 0 <= i < j < |requests| ==> requests[i].now <= requests[j].now
    ensures AdmittedFor(IpRule(allowed), map[], requests, ip, from, from + d)
            <= allowed * (Windows(d, 1_000_000_000) + 1)
  {
    AddressesIndependent(IpRule(allowed), map[], requests, ip, from, from + d);
    TimesOrdered(requests, ip);
    BoundAnywhere(IpRule(allowed), None, TimesOf(requests, ip), from, d);
  }
}
