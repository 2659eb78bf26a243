/**
 The assignment idempotency window (internal/scheduler/scheduler.go): keys
 "task|trader|epoch" kept in a map that is swept by whole seconds, while the
 epoch is cut in nanoseconds. The map answers like the unbounded history exactly
 when the window covers an epoch in the sense proved here.
 */
module AssignmentDedup {
  import opened Text

  const SECOND: int := 1_000_000_000

  function EpochOf(now: nat, epochLength: int): nat
    requires epochLength > 0
  {
    now / epochLength
  }

  function Unix(now: nat): nat {
    now / SECOND
  }

  function Key(task: string, trader: string, epoch: int): string {
    task + "|" + trader + "|" + Decimal(epoch)
  }

  /** evictOldAssignments. */
  function Evict(ledger: map<string, int>, nowUnix: int, windowSeconds: int): map<string, int> {
    map key | key in ledger && ledger[key] > nowUnix - windowSeconds :: ledger[key]
  }

  method EvictOldAssignments(ledger: map<string, int>, nowUnix: int, windowSeconds: int)
    returns (kept: map<string, int>)
    ensures kept == Evict(ledger, nowUnix, windowSeconds)
  {
    if |ledger| == 0 {
      return ledger;
    }
    var cutoff := nowUnix - windowSeconds;
    kept := ledger;
    var pending := ledger.Keys;
    while pending != {}
      invariant pending <= ledger.Keys
      invariant kept == map key | key in ledger && (key in pending || ledger[key] > cutoff) :: ledger[key]
      decreases pending
    {
      var key :| key in pending;
      pending := pending - {key};
      if ledger[key] <= cutoff {
        kept := kept - {key};
      }
    }
  }

  // ---- The printed key --------------------------------------------------

  function BeforeLastBar(s: string): string {
    if s == [] then []
    else if s[|s| - 1] == '|' then s[..|s| - 1]
    else BeforeLastBar(s[..|s| - 1])
  }

  lemma {:induction false} LastBarSplits(a: string, b: string)
    requires '|' !in b
    ensures BeforeLastBar(a + "|" + b) == a
  {
    if b == [] {
      assert (a + "|" + b)[..|a|] == a;
    } else {
      var n := |b| - 1;
      assert b[n] in b;
      assert (a + "|" + b)[..|a| + 1 + n] == a + "|" + b[..n];
      LastBarSplits(a, b[..n]);
    }
  }

  lemma SplitLast(a: string, b: string, c: string, d: string)
    requires '|' !in b && '|' !in d
    requires a + "|" + b == c + "|" + d
    ensures a == c && b == d
  {
    LastBarSplits(a, b);
    LastBarSplits(c, d);
    assert b == (a + "|" + b)[|a| + 1..] && d == (c + "|" + d)[|c| + 1..];
  }

  /** One id ends with a separator and the other id. */
  predicate EndsInId(trader: string, other: string) {
    |trader| > |other| && trader[|trader| - |other| - 1..] == "|" + other
  }

  predicate Unambiguous(traders: set<string>) {
    forall a, b :: a in traders && b in traders ==> !EndsInId(a, b)
  }

  lemma LongerEndsInShorter(task: string, trader: string, task': string, trader': string)
    requires task + "|" + trader == task' + "|" + trader' && |trader| > |trader'|
    ensures EndsInId(trader, trader')
  {
    var s := task + "|" + trader;
    var n := |trader'| + 1;
    assert s[|s| - n..] == "|" + trader';
    assert s[|s| - n..] == trader[|trader| - n..];
  }

  /** Keys that print alike come from the same triple, unless one trader id ends in the other. */
  lemma KeyInjective(task: string, trader: string, epoch: int, task': string, trader': string, epoch': int)
    requires !EndsInId(trader, trader') && !EndsInId(trader', trader)
    requires Key(task, trader, epoch) == Key(task', trader', epoch')
    ensures task == task' && trader == trader' && epoch == epoch'
  {
    DecimalRoundTrip(epoch);
    DecimalRoundTrip(epoch');
    var s, s' := task + "|" + trader, task' + "|" + trader';
    SplitLast(s, Decimal(epoch), s', Decimal(epoch'));
    if |trader| > |trader'| {
      LongerEndsInShorter(task, trader, task', trader');
    } else if |trader| < |trader'| {
      LongerEndsInShorter(task', trader', task, trader);
    } else {
      assert s[|s| - |trader|..] == trader && s'[|s'| - |trader'|..] == trader';
      assert s[..|task|] == task && s'[..|task'|] == task';
    }
  }

  /** A trader id that ends in another one lends its head to the task. */
  lemma KeyCollides(task: string, trader: string, other: string, epoch: int) returns (left: string)
    requires EndsInId(trader, other)
    ensures trader == left + "|" + other
    ensures Key(task, trader, epoch) == Key(task + "|" + left, other, epoch) && trader != other
  {
    left := trader[..|trader| - |other| - 1];
    assert trader == left + "|" + other;
    assert task + "|" + (left + "|" + other) == task + "|" + left + "|" + other;
  }

  /** Over all tasks and epochs, the key tells the trader ids of a set apart exactly when none ends in another. */
  lemma KeyInjectiveExactly(traders: set<string>)
    ensures (forall task, trader, epoch, task', trader', epoch' ::
               trader in traders && trader' in traders && Key(task, trader, epoch) == Key(task', trader', epoch') ==>
                 task == task' && trader == trader' && epoch == epoch')
            <==> Unambiguous(traders)
  {
    if Unambiguous(traders) {
      forall task, trader, epoch, task', trader', epoch' |
        trader in traders && trader' in traders && Key(task, trader, epoch) == Key(task', trader', epoch')
        ensures task == task' && trader == trader' && epoch == epoch'
      {
        KeyInjective(task, trader, epoch, task', trader', epoch');
      }
    } else {
      var a, b :| a in traders && b in traders && EndsInId(a, b);
      var left := KeyCollides("", a, b, 0);
    }
  }

  // ---- Runs -----------------------------------------------------------------

  datatype Attempt = Attempt(task: string, trader: string, now: nat, succeeds: bool)

  datatype Verdict = Duplicate | Assigned | Failed

  datatype Clock = Clock(epochLength: int, windowSeconds: int)

  function KeyOf(c: Clock, a: Attempt): string
    requires c.epochLength > 0
  {
    Key(a.task, a.trader, EpochOf(a.now, c.epochLength))
  }

  /** seenAssignment, then the assignment, then markAssignment on success. */
  function Step(c: Clock, ledger: map<string, int>, a: Attempt): (r: (map<string, int>, Verdict))
    requires c.epochLength > 0
  {
    var kept := Evict(ledger, Unix(a.now), c.windowSeconds);
    if KeyOf(c, a) in kept then (kept, Duplicate)
    else if a.succeeds then (Evict(kept, Unix(a.now), c.windowSeconds)[KeyOf(c, a) := Unix(a.now)], Assigned)
    else (kept, Failed)
  }

  function Run(c: Clock, attempts: seq<Attempt>): (r: (map<string, int>, seq<Verdict>))
    requires c.epochLength > 0
    ensures |r.1| == |attempts|
  {
    if attempts == [] then (map[], [])
    else
      var n := |attempts| - 1;
      var before := Run(c, attempts[..n]);
      var after := Step(c, before.0, attempts[n]);
      (after.0, before.1 + [after.1])
  }

  function Verdicts(c: Clock, attempts: seq<Attempt>): (v: seq<Verdict>)
    requires c.epochLength > 0
    ensures |v| == |attempts|
  {
    Run(c, attempts).1
  }

  lemma {:induction false} VerdictsOfPrefix(c: Clock, attempts: seq<Attempt>, n: nat)
    requires c.epochLength > 0 && n <= |attempts|
    ensures Verdicts(c, attempts[..n]) == Verdicts(c, attempts)[..n]
  {
    if n == |attempts| {
      assert attempts[..n] == attempts;
    } else {
      var m := |attempts| - 1;
      assert attempts[..m][..n] == attempts[..n];
      VerdictsOfPrefix(c, attempts[..m], n);
    }
  }

  ghost predicate Ordered(attempts: seq<Attempt>) {
    forall i, j :: 0 <= i < j < |attempts| ==> attempts[i].now <= attempts[j].now
  }

  function TradersOf(attempts: seq<Attempt>): set<string> {
    set a | a in attempts :: a.trader
  }

  predicate SameTriple(c: Clock, a: Attempt, b: Attempt)
    requires c.epochLength > 0
  {
    a.task == b.task && a.trader == b.trader && EpochOf(a.now, c.epochLength) == EpochOf(b.now, c.epochLength)
  }

  /** The full history: key and second of every success. */
  function Successes(c: Clock, attempts: seq<Attempt>): set<(string, int)>
    requires c.epochLength > 0
  {
    if attempts == [] then {}
    else
      var n := |attempts| - 1;
      Successes(c, attempts[..n])
      + if Verdicts(c, attempts)[n] == Assigned then {(KeyOf(c, attempts[n]), Unix(attempts[n].now))} else {}
  }

  lemma {:induction false} SuccessesAre(c: Clock, attempts: seq<Attempt>, key: string, unix: int)
    requires c.epochLength > 0
    ensures (key, unix) in Successes(c, attempts) <==>
            exists j :: 0 <= j < |attempts| && Verdicts(c, attempts)[j] == Assigned
                        && KeyOf(c, attempts[j]) == key && Unix(attempts[j].now) == unix
  {
    if attempts != [] {
      var n := |attempts| - 1;
      SuccessesAre(c, attempts[..n], key, unix);
      VerdictsOfPrefix(c, attempts, n);
      forall j | 0 <= j < n ensures attempts[..n][j] == attempts[j]
                                    && Verdicts(c, attempts[..n])[j] == Verdicts(c, attempts)[j] {
      }
    }
  }

  /** The map forgets only what is older than the window, and invents nothing. */
  ghost predicate Agrees(ledger: map<string, int>, history: set<(string, int)>, nowUnix: int, windowSeconds: int) {
    && (forall key :: key in ledger ==> (key, ledger[key]) in history)
    && (forall h :: h in history && h.1 > nowUnix - windowSeconds ==> h.0 in ledger && ledger[h.0] >= h.1)
  }

  lemma StepAgrees(c: Clock, ledger: map<string, int>, history: set<(string, int)>, last: int, a: Attempt)
    requires c.epochLength > 0 && last <= Unix(a.now)
    requires Agrees(ledger, history, last, c.windowSeconds)
    requires forall h :: h in history ==> h.1 <= last
    ensures var (after, v) := Step(c, ledger, a);
            Agrees(after, history + (if v == Assigned then {(KeyOf(c, a), Unix(a.now))} else {}),
                   Unix(a.now), c.windowSeconds)
  {
  }

  lemma UnixMonotone(s: nat, t: nat)
    requires s <= t
    ensures Unix(s) <= Unix(t)
  {
  }

  function LastUnix(attempts: seq<Attempt>): nat {
    if attempts == [] then 0 else Unix(attempts[|attempts| - 1].now)
  }

  lemma {:induction false} MapAgrees(c: Clock, attempts: seq<Attempt>)
    requires c.epochLength > 0 && Ordered(attempts)
    ensures Agrees(Run(c, attempts).0, Successes(c, attempts), LastUnix(attempts), c.windowSeconds)
    ensures forall h :: h in Successes(c, attempts) ==> h.1 <= LastUnix(attempts)
  {
    if attempts != [] {
      var n := |attempts| - 1;
      MapAgrees(c, attempts[..n]);
      if n > 0 {
        UnixMonotone(attempts[n - 1].now, attempts[n].now);
      }
      StepAgrees(c, Run(c, attempts[..n]).0, Successes(c, attempts[..n]), LastUnix(attempts[..n]), attempts[n]);
    }
  }

  /** Two moments of one epoch are always less than the window apart in whole seconds. */
  ghost predicate Covered(c: Clock)
    requires c.epochLength > 0
  {
    forall s: nat, t: nat :: s <= t && EpochOf(s, c.epochLength) == EpochOf(t, c.epochLength) ==>
      Unix(t) - Unix(s) < c.windowSeconds
  }

  /** One attempt against the map kept by an ordered run. */
  lemma DuplicateAgainstHistory(c: Clock, before: seq<Attempt>, a: Attempt)
    requires c.epochLength > 0 && Covered(c) && Ordered(before + [a])
    ensures Step(c, Run(c, before).0, a).1 == Duplicate ==> exists u :: (KeyOf(c, a), u) in Successes(c, before)
    ensures forall j :: 0 <= j < |before| && SameTriple(c, before[j], a)
                        && (KeyOf(c, a), Unix(before[j].now)) in Successes(c, before) ==>
              Step(c, Run(c, before).0, a).1 == Duplicate
  {
    assert forall i :: 0 <= i < |before| ==> (before + [a])[i] == before[i];
    assert (before + [a])[|before|] == a;
    MapAgrees(c, before);
    if before != [] {
      UnixMonotone(before[|before| - 1].now, a.now);
    }
  }

  /** A success kept under an attempt's key is one of the same triple. */
  lemma SuccessOfTriple(c: Clock, before: seq<Attempt>, a: Attempt, unix: int) returns (j: nat)
    requires c.epochLength > 0 && Unambiguous(TradersOf(before + [a]))
    requires (KeyOf(c, a), unix) in Successes(c, before)
    ensures j < |before| && Verdicts(c, before)[j] == Assigned && SameTriple(c, before[j], a)
  {
    SuccessesAre(c, before, KeyOf(c, a), unix);
    j :| 0 <= j < |before| && Verdicts(c, before)[j] == Assigned && KeyOf(c, before[j]) == KeyOf(c, a);
    assert (before + [a])[j] == before[j] && (before + [a])[|before|] == a;
    KeyInjective(before[j].task, before[j].trader, EpochOf(before[j].now, c.epochLength),
                 a.task, a.trader, EpochOf(a.now, c.epochLength));
  }

  lemma DuplicateExactlyNext(c: Clock, before: seq<Attempt>, a: Attempt)
    requires c.epochLength > 0 && Covered(c) && Ordered(before + [a]) && Unambiguous(TradersOf(before + [a]))
    ensures Step(c, Run(c, before).0, a).1 == Duplicate <==>
            exists j :: 0 <= j < |before| && Verdicts(c, before)[j] == Assigned && SameTriple(c, before[j], a)
  {
    DuplicateAgainstHistory(c, before, a);
    if u :| (KeyOf(c, a), u) in Successes(c, before) {
      var j := SuccessOfTriple(c, before, a, u);
    }
    if j :| 0 <= j < |before| && Verdicts(c, before)[j] == Assigned && SameTriple(c, before[j], a) {
      SuccessesAre(c, before, KeyOf(c, a), Unix(before[j].now));
    }
  }

  /** An attempt is refused as a duplicate exactly when its triple has already been assigned. */
  lemma DuplicateExactly(c: Clock, attempts: seq<Attempt>, i: nat)
    requires c.epochLength > 0 && Covered(c) && Ordered(attempts) && Unambiguous(TradersOf(attempts)) && i < |attempts|
    ensures Verdicts(c, attempts)[i] == Duplicate <==>
            exists j :: 0 <= j < i && Verdicts(c, attempts)[j] == Assigned && SameTriple(c, attempts[j], attempts[i])
  {
    var before, a := attempts[..i], attempts[i];
    var v := Verdicts(c, attempts);
    VerdictsOfPrefix(c, attempts, i);
    VerdictsOfPrefix(c, attempts, i + 1);
    assert attempts[..i + 1] == before + [a] && attempts[..i + 1][..i] == before;
    assert v[i] == Verdicts(c, attempts[..i + 1])[i] == Step(c, Run(c, before).0, a).1;
    DuplicateExactlyNext(c, before, a);
    assert forall j :: 0 <= j < i ==> Verdicts(c, before)[j] == v[j] && before[j] == attempts[j];
  }

  /** No triple is assigned twice in the run. */
  ghost predicate NeverTwice(c: Clock, attempts: seq<Attempt>)
    requires c.epochLength > 0
  {
    forall i, j :: 0 <= i < j < |attempts| && SameTriple(c, attempts[i], attempts[j]) ==>
      !(Verdicts(c, attempts)[i] == Assigned && Verdicts(c, attempts)[j] == Assigned)
  }

  lemma CoveredNeverTwice(c: Clock, attempts: seq<Attempt>)
    requires c.epochLength > 0 && Covered(c) && Ordered(attempts) && Unambiguous(TradersOf(attempts))
    ensures NeverTwice(c, attempts)
  {
    forall i, j | 0 <= i < j < |attempts| && SameTriple(c, attempts[i], attempts[j])
      ensures !(Verdicts(c, attempts)[i] == Assigned && Verdicts(c, attempts)[j] == Assigned)
    {
      DuplicateExactly(c, attempts, j);
    }
  }

  lemma UncoveredAssignsTwice(c: Clock) returns (attempts: seq<Attempt>)
    requires c.epochLength > 0 && !Covered(c)
    ensures Ordered(attempts) && Unambiguous(TradersOf(attempts)) && !NeverTwice(c, attempts)
  {
    var s: nat, t: nat :| s <= t && EpochOf(s, c.epochLength) == EpochOf(t, c.epochLength)
                          && Unix(t) - Unix(s) >= c.windowSeconds;
    var a, b := Attempt("task", "trader", s, true), Attempt("task", "trader", t, true);
    attempts := [a, b];
    assert attempts[..1] == [a] && [a][..0] == [];
    assert Run(c, []) == (map[], []);
    assert Evict(Evict(map[], Unix(s), c.windowSeconds), Unix(s), c.windowSeconds) == map[];
    assert Step(c, map[], a) == (map[KeyOf(c, a) := Unix(s)], Assigned);
    assert Run(c, [a]) == (Step(c, map[], a).0, [] + [Step(c, map[], a).1]);
    assert Evict(map[KeyOf(c, a) := Unix(s)], Unix(t), c.windowSeconds) == map[];
    assert Verdicts(c, attempts) == [Assigned, Assigned];
    assert SameTriple(c, attempts[0], attempts[1]);
  }

  // ---- When does the window cover an epoch? ----------------------------

  function Gcd(a: nat, b: nat): (g: nat)
    requires a > 0 || b > 0
    ensures g > 0
    decreases b
  {
    if b == 0 then a else Gcd(b, a % b)
  }

  lemma {:induction false} GcdFactors(a: nat, b: nat) returns (p: nat, q: nat)
    requires a > 0 || b > 0
    ensures a == Gcd(a, b) * p && b == Gcd(a, b) * q
    decreases b
  {
    if b == 0 {
      p, q := 1, 0;
    } else {
      var d, r := Quotient(a, b);
      var p', q' := GcdFactors(b, r);
      p, q := p' * d + q', p';
      FactorStep(Gcd(b, r), p', q', d, a, b, r);
    }
  }

  lemma Quotient(a: nat, b: nat) returns (d: nat, r: nat)
    requires b > 0
    ensures a == b * d + r && r == a % b
  {
    d, r := a / b, a % b;
  }

  lemma FactorStep(g: nat, p: nat, q: nat, d: nat, a: nat, b: nat, r: nat)
    requires a == b * d + r && b == g * p && r == g * q
    ensures a == g * (p * d + q)
  {
    assert g * (p * d) == (g * p) * d;
  }

  lemma {:induction false} Bezout(a: nat, b: nat) returns (x: int, y: int)
    requires a > 0 || b > 0
    ensures x * a + y * b == Gcd(a, b)
    decreases b
  {
    if b == 0 {
      x, y := 1, 0;
    } else {
      var d, r := Quotient(a, b);
      var x', y' := Bezout(b, r);
      x, y := y', x' - y' * d;
      BezoutStep(a, b, d, r, x', y');
    }
  }

  lemma BezoutStep(a: int, b: int, q: int, r: int, x: int, y: int)
    requires a == b * q + r
    ensures y * a + (x - y * q) * b == x * b + y * r
  {
    assert y * a == y * (b * q) + y * r;
    assert y * (b * q) == (y * q) * b;
  }

  lemma ProductBounds(g: nat, d: int)
    requires g > 0
    ensures d <= 0 ==> g * d <= 0
    ensures d >= 1 ==> g * d >= g
    ensures d <= -1 ==> g * d + g <= 0
  {
    if d >= 1 {
      assert g * (d - 1) >= 0;
    } else if d <= -1 {
      assert g * (d + 1) <= 0;
    }
  }

  /** Multiples of g below a multiple of g stay g away. */
  lemma MultiplesApart(g: nat, m: int, n: int)
    requires g > 0 && g * m < g * n
    ensures g * m <= g * n - g
  {
    assert g * (n - m) == g * n - g * m;
    ProductBounds(g, n - m);
  }

  lemma DivBounds(t: nat, d: nat)
    requires d > 0
    ensures d * (t / d) <= t < d * (t / d) + d
  {
  }

  lemma WideWindowCovers(c: Clock, s: nat, t: nat)
    requires c.epochLength > 0
    requires c.epochLength + SECOND - Gcd(c.epochLength, SECOND) <= c.windowSeconds * SECOND
    requires s <= t && EpochOf(s, c.epochLength) == EpochOf(t, c.epochLength)
    ensures Unix(t) - Unix(s) < c.windowSeconds
  {
    var e, n, u := c.epochLength, EpochOf(s, c.epochLength), Unix(s) + 1;
    var start, next := e * n, SECOND * u;
    DivBounds(s, e);
    DivBounds(t, e);
    EpochStartBefore(e, n, u);
    assert t < SECOND * (Unix(s) + c.windowSeconds);
  }

  /** An epoch that starts before a whole second starts a common divisor before it. */
  lemma EpochStartBefore(e: nat, n: nat, u: nat)
    requires e > 0 && e * n < SECOND * u
    ensures e * n <= SECOND * u - Gcd(e, SECOND)
  {
    var g := Gcd(e, SECOND);
    var p, q := GcdFactors(e, SECOND);
    assert e * n == (g * p) * n == g * (p * n);
    assert SECOND * u == (g * q) * u == g * (q * u);
    MultiplesApart(g, p * n, q * u);
  }

  lemma ShiftedBezout(e: int, g: int, x: int, y: int, q: int, shift: int)
    requires x * e + y * SECOND == g && g * q == SECOND
    ensures (x * (q - 1) + shift * SECOND) * e == (shift * e - y * (q - 1)) * SECOND + SECOND - g
  {
    var a, b := x * (q - 1), y * (q - 1);
    calc {
      a * e;
      (x * e) * (q - 1);
      (g - y * SECOND) * (q - 1);
      g * q - g - b * SECOND;
    }
    assert (shift * SECOND) * e == (shift * e) * SECOND;
    assert (a + shift * SECOND) * e == a * e + (shift * SECOND) * e;
  }

  /** Some epoch starts exactly one common divisor before a whole second. */
  lemma EpochBeforeSecond(e: nat) returns (n: nat, whole: nat)
    requires e > 0
    ensures n * e == whole * SECOND + SECOND - Gcd(e, SECOND)
    ensures 0 <= SECOND - Gcd(e, SECOND) < SECOND
  {
    var g := Gcd(e, SECOND);
    var p, q := GcdFactors(e, SECOND);
    var x, y := Bezout(e, SECOND);
    var n0 := x * (q - 1);
    var shift := if n0 < 0 then -n0 else 0;
    var w := shift * e - y * (q - 1);
    n := n0 + shift * SECOND;
    ShiftedBezout(e, g, x, y, q, shift);
    assert q >= 1 && g <= SECOND;
    assert w >= 0 by {
      assert n * e >= 0;
    }
    whole := w;
  }

  lemma NarrowWindowMisses(c: Clock)
    requires c.epochLength > 0
    requires c.epochLength + SECOND - Gcd(c.epochLength, SECOND) > c.windowSeconds * SECOND
    ensures !Covered(c)
  {
    var e, g := c.epochLength, Gcd(c.epochLength, SECOND);
    var n, whole := EpochBeforeSecond(e);
    var s, t := n * e, n * e + e - 1;
    assert EpochOf(s, e) == n && EpochOf(t, e) == n by {
      BlockQuotient(n, e, 0);
      BlockQuotient(n, e, e - 1);
    }
    BlockQuotient(whole, SECOND, SECOND - g);
    assert Unix(s) == whole;
    assert t >= (whole + c.windowSeconds) * SECOND;
    assert Unix(t) >= whole + c.windowSeconds;
  }

  lemma BlockQuotient(n: nat, d: nat, r: nat)
    requires r < d
    ensures (n * d + r) / d == n
  {
    var t := n * d + r;
    DivBounds(t, d);
    var k := t / d - n;
    assert d * (t / d) == d * n + d * k && d * n == n * d;
    ProductBounds(d, k);
  }

  /** Computed from the configuration: an epoch plus up to a second, less the grid both share. */
  predicate WindowFits(c: Clock) {
    c.epochLength > 0 && c.epochLength + SECOND - Gcd(c.epochLength, SECOND) <= c.windowSeconds * SECOND
  }

  lemma WindowFitsExactly(c: Clock)
    requires c.epochLength > 0
    ensures WindowFits(c) <==> Covered(c)
  {
    if WindowFits(c) {
      forall s: nat, t: nat | s <= t && EpochOf(s, c.epochLength) == EpochOf(t, c.epochLength)
        ensures Unix(t) - Unix(s) < c.windowSeconds
      {
        WideWindowCovers(c, s, t);
      }
    } else {
      NarrowWindowMisses(c);
    }
  }

  /**
   No run assigns a triple twice exactly when
   epoch + 1s - gcd(epoch, 1s) fits in the window's whole seconds.
   */
  lemma NeverTwiceExactly(c: Clock)
    requires c.epochLength > 0
    ensures (forall attempts :: Ordered(attempts) && Unambiguous(TradersOf(attempts)) ==> NeverTwice(c, attempts)) <==>
            c.epochLength + SECOND - Gcd(c.epochLength, SECOND) <= c.windowSeconds * SECOND
  {
    WindowFitsExactly(c);
    if WindowFits(c) {
      forall attempts | Ordered(attempts) && Unambiguous(TradersOf(attempts)) ensures NeverTwice(c, attempts) {
        CoveredNeverTwice(c, attempts);
      }
    } else {
      var attempts := UncoveredAssignsTwice(c);
    }
  }

  /** For an epoch of k whole seconds the window needs k seconds. */
  lemma WholeSecondEpochs(k: nat, windowSeconds: int)
    requires k > 0
    ensures Covered(Clock(k * SECOND, windowSeconds)) <==> k <= windowSeconds
  {
    var c := Clock(k * SECOND, windowSeconds);
    assert Gcd(k * SECOND, SECOND) == Gcd(SECOND, 0) == SECOND by {
      assert (k * SECOND) % SECOND == 0;
    }
    if k <= windowSeconds {
      forall s: nat, t: nat | s <= t && EpochOf(s, c.epochLength) == EpochOf(t, c.epochLength)
        ensures Unix(t) - Unix(s) < c.windowSeconds
      {
        WideWindowCovers(c, s, t);
      }
    } else {
      NarrowWindowMisses(c);
    }
  }

  /** The default window of two intervals is too short for a 700 ms interval. */
  lemma DefaultWindowGap()
    ensures !Covered(Clock(700_000_000, (2 * 700_000_000) / SECOND))
  {
    var e := 700_000_000;
    assert Gcd(e, SECOND) == Gcd(SECOND, e);
    assert Gcd(SECOND, e) == Gcd(e, 300_000_000);
    assert Gcd(e, 300_000_000) == Gcd(300_000_000, 100_000_000);
    assert Gcd(300_000_000, 100_000_000) == Gcd(100_000_000, 0);
    NarrowWindowMisses(Clock(e, 1));
  }
}
