/**
 Whole runs of one connection's read loop (internal/api/ws/handler.go), for any
 sequence of frames: what reaches the action switch, what is counted, and what
 the request-id check lets through.
 */
module ConnectionRuns {
  import opened Sequences
  import opened ConnectionEntries
  import opened Protocol
  import F = FixedWindow
  import R = RequestDedup

  datatype Record = Record(frame: Frame, stage: Stage)

  datatype Loop = Loop(local: Local, exit: Option<Exit>, log: seq<Record>)

  /** Reading stops at the first exit. */
  ghost function Read(c: Config, s: Loop, f: Frame): Loop
    requires c.Valid()
  {
    if s.exit.Some? then s
    else
      var o := OnFrame(c, s.local, f);
      Loop(o.local, o.exit, s.log + [Record(f, o.stage)])
  }

  ghost function ReadAll(c: Config, s: Loop, frames: seq<Frame>): Loop
    requires c.Valid()
    decreases |frames|
  {
    if frames == [] then s
    else Read(c, ReadAll(c, s, frames[..|frames| - 1]), frames[|frames| - 1])
  }

  /** What the frames of one connection do to the shared state when nothing else touches it. */
  ghost function ShareAll(c: Config, s: Loop, sh: Shared, frames: seq<Frame>): Shared
    requires c.Valid()
    decreases |frames|
  {
    if frames == [] then sh
    else
      var n := |frames| - 1;
      var before := ReadAll(c, s, frames[..n]);
      var shared := ShareAll(c, s, sh, frames[..n]);
      if before.exit.Some? then shared else ApplyEffect(shared, OnFrame(c, before.local, frames[n]).effect)
  }

  lemma {:induction false} NothingReadAfterExit(c: Config, s: Loop, sh: Shared, frames: seq<Frame>, n: nat)
    requires c.Valid() && n <= |frames| && ReadAll(c, s, frames[..n]).exit.Some?
    ensures ReadAll(c, s, frames) == ReadAll(c, s, frames[..n])
    ensures ShareAll(c, s, sh, frames) == ShareAll(c, s, sh, frames[..n])
    decreases |frames|
  {
    if n < |frames| {
      var m := |frames| - 1;
      assert frames[..m][..n] == frames[..n];
      NothingReadAfterExit(c, s, sh, frames[..m], n);
    } else {
      assert frames[..n] == frames;
    }
  }

  function Begin(sessionId: string, start: int): Loop {
    Loop(Fresh(sessionId, start), None, [])
  }

  // ---- One frame -----------------------------------------------------------

  /** Stages before the sequence check. */
  predicate Early(stage: Stage) {
    stage in {TooLarge, RateLimited, NotText, Malformed, WrongVersion, RepeatedRequest, WrongKind}
  }

  lemma ActKeeps(c: Config, l: Local, f: Frame, m: Envelope)
    requires c.Valid()
    ensures var o := Act(c, l, f, m);
            && o.stage == Reached && o.local.numbers == l.numbers && o.local.ids == l.ids && o.local.rate == l.rate
            && (Known(m.action) ==> o.local.unknown == l.unknown && o.exit != Some(ActionFlood))
  {
  }

  /** Only a frame that gets to the sequence check can move the counter, and then exactly as Observe says. */
  lemma FrameNumbers(c: Config, l: Local, f: Frame)
    requires c.Valid()
    ensures var o := OnFrame(c, l, f);
            && (Early(o.stage) ==> o.local.numbers == l.numbers && o.exit.None?)
            && (!Early(o.stage) ==>
                 && f.body.Some?
                 && var (numbers, verdict, _) := Observe(l.numbers, f.body.value.number);
                    && (o.stage == Reached <==> verdict == Accepted)
                    && (o.stage == GapFound <==> verdict == Gap)
                    && (o.stage == GapFound <==> o.exit == Some(SequenceGap))
                    && o.local.numbers.tracking == numbers.tracking && o.local.numbers.inbound == numbers.inbound)
  {
    ScreenNumbers(c, l, f);
    var (screened, stage) := Screen(c, l, f);
    if stage == Reached {
      ActKeeps(c, screened, f, f.body.value);
      ActNeverGaps(c, screened, f, f.body.value);
    }
  }

  lemma ActNeverGaps(c: Config, l: Local, f: Frame, m: Envelope)
    requires c.Valid()
    ensures Act(c, l, f, m).exit != Some(SequenceGap)
  {
  }

  lemma ScreenNumbers(c: Config, l: Local, f: Frame)
    ensures var (screened, stage) := Screen(c, l, f);
            && (Early(stage) ==> screened.numbers == l.numbers)
            && (!Early(stage) ==>
                 && f.body.Some?
                 && var (numbers, verdict, _) := Observe(l.numbers, f.body.value.number);
                    && (stage == Reached <==> verdict == Accepted)
                    && (stage == GapFound <==> verdict == Gap)
                    && (stage == NumberRepeated <==> verdict == Observation.Duplicate)
                    && screened.numbers.tracking == numbers.tracking && screened.numbers.inbound == numbers.inbound)
  {
  }

  // ---- In-order, exactly-once delivery -----------------------------------

  function Number(r: Record): Option<u64> {
    if r.stage == Reached && r.frame.body.Some? then Some(r.frame.body.value.number) else None
  }

  /** The numbers of the frames that reached the switch. */
  function Delivered(log: seq<Record>): seq<u64> {
    FilterMap(Number, log)
  }

  ghost predicate DeliveredSoFar(s: Loop) {
    DeliveredTo(Delivered(s.log), s.local.numbers.tracking, s.local.numbers.inbound, s.exit.None?)
  }

  ghost predicate DeliveredTo(numbers: seq<u64>, tracking: bool, inbound: u64, open: bool) {
    && InOrder(numbers, inbound)
    && (!tracking ==> inbound == 0)
    && (tracking && open ==> inbound >= 1)
  }

  lemma ObserveDelivers(numbers: seq<u64>, s: SeqState, received: u64)
    requires DeliveredTo(numbers, s.tracking, s.inbound, true)
    ensures var (t, verdict, _) := Observe(s, received);
            DeliveredTo(if verdict == Accepted then numbers + [received] else numbers,
                        t.tracking, t.inbound, verdict != Gap)
  {
  }

  lemma StillDelivered(numbers: seq<u64>, tracking: bool, inbound: u64, open: bool, still: bool)
    requires DeliveredTo(numbers, tracking, inbound, open) && (still ==> open)
    ensures DeliveredTo(numbers, tracking, inbound, still)
  {
  }

  lemma ReadDelivers(c: Config, s: Loop, f: Frame)
    requires c.Valid() && DeliveredSoFar(s)
    ensures DeliveredSoFar(Read(c, s, f))
  {
    if s.exit.None? {
      FrameNumbers(c, s.local, f);
      var o := OnFrame(c, s.local, f);
      var numbers, t := Delivered(s.log), o.local.numbers;
      FilterMapAppend(Number, s.log, Record(f, o.stage));
      if Early(o.stage) {
        assert Delivered(Read(c, s, f).log) == numbers;
      } else {
        ObserveDelivers(numbers, s.local.numbers, f.body.value.number);
        var next := if o.stage == Reached then numbers + [f.body.value.number] else numbers;
        assert Delivered(Read(c, s, f).log) == next;
        StillDelivered(next, t.tracking, t.inbound, o.stage != GapFound, o.exit.None?);
      }
    }
  }

  /**
   Whatever the peer sends and whatever the other checks drop: the frames that
   reach the action switch are unnumbered ones followed by exactly 1..k, each once
   and in order, with k the inbound counter.
   */
  lemma {:induction false} SwitchSeesInOrder(c: Config, sessionId: string, start: int, frames: seq<Frame>)
    requires c.Valid()
    ensures DeliveredSoFar(ReadAll(c, Begin(sessionId, start), frames))
  {
    if frames != [] {
      SwitchSeesInOrder(c, sessionId, start, frames[..|frames| - 1]);
      ReadDelivers(c, ReadAll(c, Begin(sessionId, start), frames[..|frames| - 1]), frames[|frames| - 1]);
    }
  }

  predicate GotThrough(r: Record, n: int) {
    !Early(r.stage) && r.frame.body.Some? && r.frame.body.value.number == n
  }

  /** What becomes of a message numbered n that comes to the sequence check while k + 1 is missing. */
  predicate Handled(r: Record, n: u64, k: nat, tracked: bool) {
    if n > k then r.stage == GapFound
    else if n > 0 then r.stage == NumberRepeated
    else r.stage == if tracked then NumberMissing else Reached
  }

  /**
   While number k + 1 is missing: numbers up to k are ignored, a higher one is the
   last frame read. Unnumbered frames pass only before the first numbered one.
   */
  ghost predicate Stuck(s: Loop, from: nat, k: nat, tracked: bool) {
    && from <= |s.log| && s.local.numbers.inbound == k
    && (!tracked ==> k == 0)
    && (s.exit != Some(SequenceGap) ==> s.local.numbers.tracking == tracked)
    && forall i :: from <= i < |s.log| && !Early(s.log[i].stage) ==>
         && s.log[i].frame.body.Some?
         && Handled(s.log[i], s.log[i].frame.body.value.number, k, tracked)
         && (s.log[i].stage == GapFound ==> i == |s.log| - 1 && s.exit == Some(SequenceGap))
  }

  lemma FrameHandled(c: Config, l: Local, f: Frame, k: nat)
    requires c.Valid() && k < TWO64 - 1 && l.numbers.inbound == k && (!l.numbers.tracking ==> k == 0)
    requires !GotThrough(Record(f, OnFrame(c, l, f).stage), k + 1)
    ensures var o := OnFrame(c, l, f);
            && (!Early(o.stage) ==>
                  f.body.Some? && Handled(Record(f, o.stage), f.body.value.number, k, l.numbers.tracking))
            && (o.stage == GapFound <==> o.exit == Some(SequenceGap))
            && o.local.numbers.inbound == k
            && (o.exit != Some(SequenceGap) ==> o.local.numbers.tracking == l.numbers.tracking)
  {
    FrameNumbers(c, l, f);
    StageNumbers(c, l, f);
    if !Early(OnFrame(c, l, f).stage) {
      ObserveStuck(l.numbers, f.body.value.number, k);
    }
  }

  /** The verdict on a number other than k + 1. */
  lemma ObserveStuck(s: SeqState, n: u64, k: nat)
    requires k < TWO64 - 1 && s.inbound == k && (!s.tracking ==> k == 0) && n != k + 1
    ensures var (t, verdict, _) := Observe(s, n);
            && t.inbound == k && (verdict != Gap ==> t.tracking == s.tracking)
            && verdict == if n > k then Gap else if n > 0 then Observation.Duplicate
                          else if s.tracking then Invalid else Accepted
  {
  }

  lemma StageNumbers(c: Config, l: Local, f: Frame)
    requires c.Valid()
    ensures var stage := OnFrame(c, l, f).stage;
            !Early(stage) ==>
              && f.body.Some?
              && var verdict := Observe(l.numbers, f.body.value.number).1;
                 && (stage == NumberRepeated <==> verdict == Observation.Duplicate)
                 && (stage == NumberMissing <==> verdict == Invalid)
  {
    ScreenNumbers(c, l, f);
    var (screened, stage) := Screen(c, l, f);
    if stage == Reached {
      ActKeeps(c, screened, f, f.body.value);
    }
  }

  lemma ReadStuck(c: Config, s: Loop, f: Frame, from: nat, k: nat, tracked: bool)
    requires c.Valid() && k < TWO64 - 1 && Stuck(s, from, k, tracked)
    requires s.exit.None? ==> !GotThrough(Record(f, OnFrame(c, s.local, f).stage), k + 1)
    ensures Stuck(Read(c, s, f), from, k, tracked)
  {
    if s.exit.None? {
      FrameHandled(c, s.local, f, k);
      var o := OnFrame(c, s.local, f);
      StuckAppend(s, Read(c, s, f), Record(f, o.stage), from, k, tracked);
    }
  }

  lemma StuckAppend(s: Loop, t: Loop, r: Record, from: nat, k: nat, tracked: bool)
    requires Stuck(s, from, k, tracked) && s.exit.None? && t.log == s.log + [r] && t.local.numbers.inbound == k
    requires !Early(r.stage) ==> r.frame.body.Some? && Handled(r, r.frame.body.value.number, k, tracked)
    requires r.stage == GapFound <==> t.exit == Some(SequenceGap)
    requires t.exit != Some(SequenceGap) ==> t.local.numbers.tracking == tracked
    ensures Stuck(t, from, k, tracked)
  {
    assert forall i :: 0 <= i < |s.log| ==> t.log[i] == s.log[i];
    assert t.log[|s.log|] == r;
  }

  ghost predicate NeverThrough(t: Loop, from: nat, n: int) {
    forall i :: from <= i < |t.log| ==> !GotThrough(t.log[i], n)
  }

  lemma {:induction false} StaysStuck(c: Config, s: Loop, frames: seq<Frame>, k: nat)
    requires c.Valid() && k < TWO64 - 1
    requires s.exit.None? && s.local.numbers.inbound == k && (!s.local.numbers.tracking ==> k == 0)
    requires NeverThrough(ReadAll(c, s, frames), |s.log|, k + 1)
    ensures Stuck(ReadAll(c, s, frames), |s.log|, k, s.local.numbers.tracking)
    decreases |frames|
  {
    if frames != [] {
      var before, f := frames[..|frames| - 1], frames[|frames| - 1];
      var t, u := ReadAll(c, s, before), ReadAll(c, s, frames);
      LogGrows(c, s, before);
      assert |u.log| >= |t.log| && u.log[..|t.log|] == t.log;
      forall i | |s.log| <= i < |t.log| ensures !GotThrough(t.log[i], k + 1) {
        assert u.log[i] == t.log[i];
      }
      StaysStuck(c, s, before, k);
      if t.exit.None? {
        assert u.log[|t.log|] == Record(f, OnFrame(c, t.local, f).stage);
      }
      ReadStuck(c, t, f, |s.log|, k, s.local.numbers.tracking);
    }
  }

  /** Some connection's loop after some frames. */
  ghost predicate Reachable(c: Config, s: Loop)
    requires c.Valid()
  {
    exists sessionId, start, frames :: s == ReadAll(c, Begin(sessionId, start), frames)
  }

  /**
   A lost number is never skipped, the first one included. From any state in which
   the connection is open with counter k, and as long as no frame numbered k + 1
   passes the earlier checks - it may have been sent and dropped by one of them -
   the counter stays at k, and the first later number that passes them ends the
   connection with 4009.
   */
  lemma LostNumberEndsTheConnection(c: Config, s: Loop, frames: seq<Frame>)
    requires c.Valid() && Reachable(c, s) && s.exit.None? && s.local.numbers.inbound < TWO64 - 1
    ensures var t, k := ReadAll(c, s, frames), s.local.numbers.inbound;
            NeverThrough(t, |s.log|, k + 1) ==> Stuck(t, |s.log|, k, s.local.numbers.tracking)
  {
    var sessionId, start, earlier :| s == ReadAll(c, Begin(sessionId, start), earlier);
    UntrackedIsZero(c, sessionId, start, earlier);
    if NeverThrough(ReadAll(c, s, frames), |s.log|, s.local.numbers.inbound + 1) {
      StaysStuck(c, s, frames, s.local.numbers.inbound);
    }
  }

  lemma UntrackedIsZero(c: Config, sessionId: string, start: int, frames: seq<Frame>)
    requires c.Valid()
    ensures var s := ReadAll(c, Begin(sessionId, start), frames);
            !s.local.numbers.tracking ==> s.local.numbers.inbound == 0
  {
    SwitchSeesInOrder(c, sessionId, start, frames);
  }

  /** What becomes of a frame when k numbers have been heard. */
  ghost predicate Sequenced(f: Frame, o: Outcome, k: u64) {
    && (o.exit == Some(SequenceGap) <==> o.stage == GapFound)
    && (Early(o.stage) ==> o.local.numbers.inbound == k)
    && (!Early(o.stage) ==>
          && f.body.Some?
          && var n := f.body.value.number;
             && (o.stage == Reached <==> n == k + 1 || (n == 0 && k == 0))
             && (o.stage == GapFound <==> n > k + 1 || (n > 0 && k == 0xFFFF_FFFF_FFFF_FFFF))
             && (o.stage == NumberRepeated <==> 0 < n <= k < 0xFFFF_FFFF_FFFF_FFFF)
             && o.local.numbers.inbound == if n == k + 1 then n else k)
  }

  /**
   The sequence check from any state in which the connection is open, k numbers
   having been heard: a frame that passes the earlier checks reaches the switch
   exactly when it carries k + 1, or no number before the first one, and ends the
   connection exactly when it skips a number or follows the largest one.
   */
  lemma NextNumberIsHeard(c: Config, s: Loop, f: Frame)
    requires c.Valid() && Reachable(c, s) && s.exit.None?
    ensures Sequenced(f, OnFrame(c, s.local, f), s.local.numbers.inbound)
  {
    var sessionId, start, earlier :| s == ReadAll(c, Begin(sessionId, start), earlier);
    SwitchSeesInOrder(c, sessionId, start, earlier);
    NextNumber(c, s.local, f);
  }

  lemma NextNumber(c: Config, l: Local, f: Frame)
    requires c.Valid() && (l.numbers.tracking <==> l.numbers.inbound >= 1)
    ensures Sequenced(f, OnFrame(c, l, f), l.numbers.inbound)
  {
    FrameNumbers(c, l, f);
    var (screened, stage) := Screen(c, l, f);
    ScreenNumbers(c, l, f);
    if stage == Reached {
      ActKeeps(c, screened, f, f.body.value);
    }
  }

  lemma {:induction false} LogGrows(c: Config, s: Loop, frames: seq<Frame>)
    requires c.Valid()
    ensures |s.log| <= |ReadAll(c, s, frames).log|
    decreases |frames|
  {
    if frames != [] {
      LogGrows(c, s, frames[..|frames| - 1]);
    }
  }

  // ---- The two windows ---------------------------------------------------

  ghost predicate InTimeOrder(frames: seq<Frame>) {
    forall i, j :: 0 <= i < j < |frames| ==> frames[i].now <= frames[j].now
  }

  lemma OrderedAppend(times: seq<int>, t: int)
    requires F.Ordered(times) && forall x :: x in times ==> x <= t
    ensures F.Ordered(times + [t])
  {
    assert forall i :: 0 <= i < |times| ==> times[i] in times;
  }

  function CountIn(p: Record -> bool, log: seq<Record>, from: int, to: int): nat {
    if log == [] then 0
    else
      var last := log[|log| - 1];
      CountIn(p, log[..|log| - 1], from, to) + if p(last) && from <= last.frame.now < to then 1 else 0
  }

  /** Frames the rate window counts, and those it lets pass. */
  function RateTime(r: Record): Option<int> {
    if r.stage == TooLarge then None else Some(r.frame.now)
  }

  predicate PassedRate(r: Record) {
    r.stage != TooLarge && r.stage != RateLimited
  }

  /** Unknown actions that reach the switch. */
  predicate IsUnknown(r: Record) {
    r.stage == Reached && r.frame.body.Some? && !Known(r.frame.body.value.action)
  }

  function UnknownTime(r: Record): Option<int> {
    if IsUnknown(r) then Some(r.frame.now) else None
  }

  ghost predicate Windowed(s: Loop, rule: F.Rule, first: F.Window, now: F.Window, times: seq<int>, p: Record -> bool,
                           from: int, to: int) {
    && now == F.After(rule, first, times)
    && F.Ordered(times)
    && CountIn(p, s.log, from, to) == F.Admitted(rule, Some(first), times, from, to)
  }

  lemma WindowBound(s: Loop, rule: F.Rule, first: F.Window, w: F.Window, times: seq<int>, p: Record -> bool,
                    from: int, d: nat)
    requires rule.length > 0 && Windowed(s, rule, first, w, times, p, from, from + d)
    ensures CountIn(p, s.log, from, from + d) <= rule.limit * (F.Windows(d, rule.length) + 1)
  {
    F.BoundAnywhere(rule, Some(first), times, from, d);
  }

  lemma WindowTwice(s: Loop, rule: F.Rule, first: F.Window, w: F.Window, times: seq<int>, p: Record -> bool, from: int)
    requires rule.length > 0 && Windowed(s, rule, first, w, times, p, from, from + rule.length)
    ensures CountIn(p, s.log, from, from + rule.length) <= 2 * rule.limit
  {
    F.TwiceTheLimit(rule, Some(first), times, from);
  }

  lemma FrameRate(c: Config, l: Local, f: Frame)
    requires c.Valid()
    ensures var o := OnFrame(c, l, f);
            && (o.stage == TooLarge ==> o.local.rate == l.rate)
            && (o.stage != TooLarge ==>
                  && o.local.rate == F.Tick(RateRule(c), Some(l.rate), f.now)
                  && (o.stage != RateLimited <==> F.Admits(RateRule(c), o.local.rate)))
  {
    var (screened, stage) := Screen(c, l, f);
    if stage == Reached {
      ActKeeps(c, screened, f, f.body.value);
    }
  }

  lemma FrameUnknown(c: Config, l: Local, f: Frame)
    requires c.Valid()
    ensures var o := OnFrame(c, l, f);
            && (!IsUnknown(Record(f, o.stage)) ==> o.local.unknown == l.unknown && o.exit != Some(ActionFlood))
            && (IsUnknown(Record(f, o.stage)) ==>
                  && o.local.unknown == F.Tick(UnknownRule(c), Some(l.unknown), f.now)
                  && (o.exit != Some(ActionFlood) <==> F.Admits(UnknownRule(c), o.local.unknown)))
  {
    var (screened, stage) := Screen(c, l, f);
    if stage == Reached {
      ActKeeps(c, screened, f, f.body.value);
    }
  }

  ghost predicate Past(log: seq<Record>, now: int) {
    forall r :: r in log ==> r.frame.now <= now
  }

  lemma {:induction false} LogIsPast(c: Config, s: Loop, frames: seq<Frame>, now: int)
    requires c.Valid() && Past(s.log, now) && forall f :: f in frames ==> f.now <= now
    ensures Past(ReadAll(c, s, frames).log, now)
    decreases |frames|
  {
    if frames != [] {
      LogIsPast(c, s, frames[..|frames| - 1], now);
    }
  }

  /** Appending a record that the window counts, or one that it does not. */
  lemma WindowStep(s: Loop, t: Loop, r: Record, rule: F.Rule, first: F.Window, w: F.Window, v: F.Window,
                   f: Record -> Option<int>, p: Record -> bool, from: int, to: int)
    requires Windowed(s, rule, first, w, FilterMap(f, s.log), p, from, to)
    requires t.log == s.log + [r] && Past(s.log, r.frame.now)
    requires forall x :: f(x).Some? ==> f(x).value == x.frame.now
    requires f(r).None? ==> v == w && !p(r)
    requires f(r).Some? ==> v == F.Tick(rule, Some(w), r.frame.now) && (p(r) <==> F.Admits(rule, v))
    ensures Windowed(t, rule, first, v, FilterMap(f, t.log), p, from, to)
  {
    var times := FilterMap(f, s.log);
    FilterMapAppend(f, s.log, r);
    assert t.log[..|t.log| - 1] == s.log;
    if f(r).Some? {
      F.OneMoreEvent(rule, first, times, r.frame.now, from, to);
      OrderedAppend(times, r.frame.now);
    }
  }

  ghost predicate RateWindowed(c: Config, s: Loop, first: F.Window, from: int, to: int) {
    Windowed(s, RateRule(c), first, s.local.rate, FilterMap(RateTime, s.log), PassedRate, from, to)
  }

  lemma {:induction false} RateIsFixedWindow(c: Config, sessionId: string, start: int, frames: seq<Frame>,
                                             from: int, to: int)
    requires c.Valid() && InTimeOrder(frames)
    ensures RateWindowed(c, ReadAll(c, Begin(sessionId, start), frames), F.Window(start, 0), from, to)
  {
    if frames != [] {
      var before, f := frames[..|frames| - 1], frames[|frames| - 1];
      RateIsFixedWindow(c, sessionId, start, before, from, to);
      LogIsPast(c, Begin(sessionId, start), before, f.now);
      var s := ReadAll(c, Begin(sessionId, start), before);
      if s.exit.None? {
        FrameRate(c, s.local, f);
        var t := Read(c, s, f);
        WindowStep(s, t, Record(f, OnFrame(c, s.local, f).stage), RateRule(c), F.Window(start, 0),
                   s.local.rate, t.local.rate, RateTime, PassedRate, from, to);
      }
    }
  }

  /** Any interval of length d lets at most limit * (ceil(d / 1s) + 1) frames of one connection pass. */
  lemma FramesPassedBound(c: Config, sessionId: string, start: int, frames: seq<Frame>, from: int, d: nat)
    requires c.Valid() && InTimeOrder(frames)
    ensures CountIn(PassedRate, ReadAll(c, Begin(sessionId, start), frames).log, from, from + d)
            <= c.maxMessagesPerSec * (F.Windows(d, SECOND) + 1)
  {
    var s := ReadAll(c, Begin(sessionId, start), frames);
    RateIsFixedWindow(c, sessionId, start, frames, from, from + d);
    WindowBound(s, RateRule(c), F.Window(start, 0), s.local.rate, FilterMap(RateTime, s.log), PassedRate, from, d);
  }

  ghost predicate UnknownWindowed(c: Config, s: Loop, first: F.Window, from: int, to: int)
    requires c.Valid()
  {
    Windowed(s, UnknownRule(c), first, s.local.unknown, FilterMap(UnknownTime, s.log), IsUnknown, from, to)
  }

  lemma {:induction false} UnknownIsFixedWindow(c: Config, sessionId: string, start: int, frames: seq<Frame>,
                                                from: int, to: int)
    requires c.Valid() && InTimeOrder(frames)
    requires ReadAll(c, Begin(sessionId, start), frames).exit != Some(ActionFlood)
    ensures UnknownWindowed(c, ReadAll(c, Begin(sessionId, start), frames), F.Window(start, 0), from, to)
  {
    if frames != [] {
      var before, f := frames[..|frames| - 1], frames[|frames| - 1];
      UnknownIsFixedWindow(c, sessionId, start, before, from, to);
      LogIsPast(c, Begin(sessionId, start), before, f.now);
      var s := ReadAll(c, Begin(sessionId, start), before);
      if s.exit.None? {
        FrameUnknown(c, s.local, f);
        var t := Read(c, s, f);
        WindowStep(s, t, Record(f, OnFrame(c, s.local, f).stage), UnknownRule(c), F.Window(start, 0),
                   s.local.unknown, t.local.unknown, UnknownTime, IsUnknown, from, to);
      }
    }
  }

  /** A connection that survives the guard sends at most 2 * (max - 1) unknown actions in any window length. */
  lemma SurvivorsSendFewUnknown(c: Config, sessionId: string, start: int, frames: seq<Frame>, from: int)
    requires c.Valid() && InTimeOrder(frames)
    requires ReadAll(c, Begin(sessionId, start), frames).exit != Some(ActionFlood)
    ensures CountIn(IsUnknown, ReadAll(c, Begin(sessionId, start), frames).log, from, from + c.unknownActionWindow)
            <= 2 * (c.maxUnknownActions - 1)
  {
    UnknownIsFixedWindow(c, sessionId, start, frames, from, from + c.unknownActionWindow);
    UnknownTwice(c, ReadAll(c, Begin(sessionId, start), frames), start, from);
  }

  lemma UnknownTwice(c: Config, s: Loop, start: int, from: int)
    requires c.Valid() && UnknownWindowed(c, s, F.Window(start, 0), from, from + c.unknownActionWindow)
    ensures CountIn(IsUnknown, s.log, from, from + c.unknownActionWindow) <= 2 * (c.maxUnknownActions - 1)
  {
    WindowTwice(s, UnknownRule(c), F.Window(start, 0), s.local.unknown, FilterMap(UnknownTime, s.log), IsUnknown, from);
  }

  // ---- Request ids ---------------------------------------------------------

  /** The request-id check a frame came to, and its answer. */
  function Ask(r: Record): Option<R.Request> {
    if r.stage in {TooLarge, RateLimited, NotText, Malformed, WrongVersion} || r.frame.body.None? then None
    else if HasRequestId(r.frame.body.value) then Some(R.Request(r.frame.body.value.requestId, r.frame.now))
    else None
  }

  function Answer(r: Record): Option<bool> {
    if Ask(r).Some? then Some(r.stage != RepeatedRequest) else None
  }

  lemma FrameIds(c: Config, l: Local, f: Frame)
    requires c.Valid()
    ensures var o := OnFrame(c, l, f);
            var r := Record(f, o.stage);
            && (Ask(r).None? ==> o.local.ids == l.ids)
            && (Ask(r).Some? ==>
                  (o.local.ids, o.stage != RepeatedRequest) == R.Check(l.ids, Ask(r).value, c.requestDedupWindow))
  {
    var (screened, stage) := Screen(c, l, f);
    if stage == Reached {
      ActKeeps(c, screened, f, f.body.value);
    }
  }

  lemma {:induction false} IdsAreDeduplicated(c: Config, sessionId: string, start: int, frames: seq<Frame>)
    requires c.Valid()
    ensures var s := ReadAll(c, Begin(sessionId, start), frames);
            (s.local.ids, FilterMap(Answer, s.log)) == R.Run(FilterMap(Ask, s.log), c.requestDedupWindow)
  {
    if frames != [] {
      var before, f := frames[..|frames| - 1], frames[|frames| - 1];
      IdsAreDeduplicated(c, sessionId, start, before);
      var s := ReadAll(c, Begin(sessionId, start), before);
      if s.exit.None? {
        FrameIds(c, s.local, f);
        var r := Record(f, OnFrame(c, s.local, f).stage);
        FilterMapAppend(Ask, s.log, r);
        FilterMapAppend(Answer, s.log, r);
        if Ask(r).Some? {
          var asks := FilterMap(Ask, s.log);
          assert (asks + [Ask(r).value])[..|asks|] == asks;
        }
      }
    }
  }

  lemma {:induction false} SameCount(log: seq<Record>)
    ensures |FilterMap(Ask, log)| == |FilterMap(Answer, log)|
  {
    if log != [] {
      SameCount(log[..|log| - 1]);
    }
  }

  predicate Passed(r: Record) {
    Ask(r).Some? && r.stage != RepeatedRequest
  }

  /** The answers are those of the request-id window to the questions. */
  ghost predicate AnsweredBy(log: seq<Record>, window: int) {
    && R.Ordered(FilterMap(Ask, log))
    && FilterMap(Answer, log) == R.Accepted(FilterMap(Ask, log), window)
  }

  lemma PositionOf(log: seq<Record>, i: nat) returns (k: nat)
    requires i < |log| && Ask(log[i]).Some?
    ensures k == |FilterMap(Ask, log[..i])|
    ensures k < |FilterMap(Ask, log)| == |FilterMap(Answer, log)|
    ensures FilterMap(Ask, log)[k] == Ask(log[i]).value && FilterMap(Answer, log)[k] == Passed(log[i])
  {
    k := |FilterMap(Ask, log[..i])|;
    FilterMapPosition(Ask, log, i);
    FilterMapPosition(Answer, log, i);
    SameCount(log);
    SameCount(log[..i]);
  }

  lemma AskTime(r: Record)
    requires Ask(r).Some?
    ensures Ask(r).value.now == r.frame.now
  {
  }

  /** An earlier frame that explains a refusal. */
  ghost predicate Blocks(log: seq<Record>, window: int, j: nat, i: nat) {
    && j < i < |log| && Passed(log[j]) && Ask(log[i]).Some?
    && Ask(log[j]).value.id == Ask(log[i]).value.id
    && log[i].frame.now - log[j].frame.now <= window
  }

  lemma RefusedIsBlocked(log: seq<Record>, window: int, i: nat) returns (j: nat)
    requires window >= 0 && AnsweredBy(log, window) && i < |log| && Ask(log[i]).Some? && !Passed(log[i])
    ensures Blocks(log, window, j, i)
  {
    var asks := FilterMap(Ask, log);
    var k := PositionOf(log, i);
    R.RejectedExactly(asks, window, k);
    var h :| 0 <= h < k && R.Accepted(asks, window)[h] && asks[h].id == asks[k].id
             && asks[k].now - asks[h].now <= window;
    j := FilterMapPreimage(Ask, log, h);
    var g := PositionOf(log, j);
    if i < j {
      FilterMapPositionsInOrder(Ask, log, i, j);
    }
    AskTime(log[i]);
    AskTime(log[j]);
  }

  lemma BlockedIsRefused(log: seq<Record>, window: int, i: nat, j: nat)
    requires window >= 0 && AnsweredBy(log, window) && Blocks(log, window, j, i)
    ensures !Passed(log[i])
  {
    var asks := FilterMap(Ask, log);
    var k := PositionOf(log, i);
    var h := PositionOf(log, j);
    FilterMapPositionsInOrder(Ask, log, j, i);
    AskTime(log[i]);
    AskTime(log[j]);
    R.RejectedExactly(asks, window, k);
  }

  lemma {:induction false} AsksInTimeOrder(c: Config, sessionId: string, start: int, frames: seq<Frame>)
    requires c.Valid() && InTimeOrder(frames)
    ensures R.Ordered(FilterMap(Ask, ReadAll(c, Begin(sessionId, start), frames).log))
  {
    if frames != [] {
      var before, f := frames[..|frames| - 1], frames[|frames| - 1];
      AsksInTimeOrder(c, sessionId, start, before);
      LogIsPast(c, Begin(sessionId, start), before, f.now);
      var s := ReadAll(c, Begin(sessionId, start), before);
      if s.exit.None? {
        AskAppended(s.log, Record(f, OnFrame(c, s.local, f).stage));
      }
    }
  }

  lemma AskAppended(log: seq<Record>, r: Record)
    requires R.Ordered(FilterMap(Ask, log)) && Past(log, r.frame.now)
    ensures R.Ordered(FilterMap(Ask, log + [r]))
  {
    FilterMapAppend(Ask, log, r);
    forall q | q in FilterMap(Ask, log) ensures q.now <= r.frame.now {
      var x :| x in log && Ask(x) == Some(q);
    }
  }

  /**
   In any run a frame is refused as a duplicate request exactly when an earlier
   frame with the same request id passed this check no longer than one window ago,
   whatever became of that frame afterwards.
   */
  lemma DuplicateRequestExactly(c: Config, sessionId: string, start: int, frames: seq<Frame>, i: nat)
    requires c.Valid() && InTimeOrder(frames)
    requires i < |ReadAll(c, Begin(sessionId, start), frames).log|
    requires Ask(ReadAll(c, Begin(sessionId, start), frames).log[i]).Some?
    ensures var log := ReadAll(c, Begin(sessionId, start), frames).log;
            log[i].stage == RepeatedRequest <==> exists j: nat :: Blocks(log, c.requestDedupWindow, j, i)
  {
    var log := ReadAll(c, Begin(sessionId, start), frames).log;
    IdsAreDeduplicated(c, sessionId, start, frames);
    AsksInTimeOrder(c, sessionId, start, frames);
    if !Passed(log[i]) {
      var j := RefusedIsBlocked(log, c.requestDedupWindow, i);
    }
    if j: nat :| Blocks(log, c.requestDedupWindow, j, i) {
      BlockedIsRefused(log, c.requestDedupWindow, i, j);
    }
  }

  /** So one request id passes at most once in any window. */
  lemma RequestsPassApart(c: Config, sessionId: string, start: int, frames: seq<Frame>, i: nat, j: nat)
    requires c.Valid() && InTimeOrder(frames)
    requires i < j < |ReadAll(c, Begin(sessionId, start), frames).log|
    requires var log := ReadAll(c, Begin(sessionId, start), frames).log;
             Passed(log[i]) && Passed(log[j]) && Ask(log[i]).value.id == Ask(log[j]).value.id
    ensures var log := ReadAll(c, Begin(sessionId, start), frames).log;
            log[j].frame.now - log[i].frame.now > c.requestDedupWindow
  {
    var log := ReadAll(c, Begin(sessionId, start), frames).log;
    DuplicateRequestExactly(c, sessionId, start, frames, j);
    assert !Blocks(log, c.requestDedupWindow, i, j);
  }
}
