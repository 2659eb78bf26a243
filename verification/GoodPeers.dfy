/**
 A peer that keeps the protocol is heard: whole runs of one connection's read loop
 (internal/api/ws/handler.go) in which no check ever refuses a frame.
 */
module GoodPeers {
  import opened Sequences
  import opened ConnectionEntries
  import opened Protocol
  import opened ConnectionRuns
  import opened FrameEffects
  import F = FixedWindow

  function NumberOf(f: Frame): nat {
    if f.body.Some? then f.body.value.number else 0
  }

  function HighestNumber(frames: seq<Frame>): nat {
    if frames == [] then 0
    else
      var before, n := HighestNumber(frames[..|frames| - 1]), NumberOf(frames[|frames| - 1]);
      if n > before then n else before
  }

  /** One frame that meets the requirements on form; its action is known and its registration, if any, not contested. */
  ghost predicate InForm(c: Config, f: Frame) {
    && f.size <= c.maxPayloadBytes && f.text && f.body.Some?
    && f.body.value.version in {"", "1"} && f.body.value.kind in {"request", "event"}
    && f.body.value.action in {"trader.register", "trader.heartbeat", "latency.test_result"}
    && f.outside.create != ActiveSessionExists
  }

  ghost predicate SameRequest(f: Frame, g: Frame) {
    && f.body.Some? && g.body.Some?
    && f.body.value.kind == "request" && g.body.value.kind == "request"
    && f.body.value.requestId == g.body.value.requestId != ""
  }

  /** Numbers from 1 without a gap, request ids not reused within a window, no burst above the rate. */
  ghost predicate KeepsProtocol(c: Config, start: int, frames: seq<Frame>) {
    && InTimeOrder(frames)
    && (forall i :: 0 <= i < |frames| ==> InForm(c, frames[i]) && start <= frames[i].now)
    && (forall i :: c.maxMessagesPerSec <= i < |frames| ==>
          frames[i].now - frames[i - c.maxMessagesPerSec].now >= 1_000_000_000)
    && (forall i, j :: 0 <= i < j < |frames| && SameRequest(frames[i], frames[j]) ==>
          frames[j].now - frames[i].now > c.requestDedupWindow)
    && (forall i :: 0 <= i < |frames| ==>
          var n, highest := NumberOf(frames[i]), HighestNumber(frames[..i]);
          n == highest + 1 || (n == 0 && highest == 0))
  }

  lemma PrefixKeeps(c: Config, start: int, frames: seq<Frame>)
    requires KeepsProtocol(c, start, frames) && frames != []
    ensures KeepsProtocol(c, start, frames[..|frames| - 1])
  {
    var before := frames[..|frames| - 1];
    forall i | 0 <= i < |before| ensures before[..i] == frames[..i] && before[i] == frames[i] {
    }
  }

  /** Every frame so far has reached the switch. */
  ghost predicate AllHeard(s: Loop, frames: seq<Frame>) {
    s.exit.None? && AllReached(s.log, frames) && s.local.numbers.inbound == HighestNumber(frames)
  }

  ghost predicate AllReached(log: seq<Record>, frames: seq<Frame>) {
    |log| == |frames| && forall i :: 0 <= i < |frames| ==> log[i].frame == frames[i] && log[i].stage == Reached
  }

  function Times(frames: seq<Frame>): seq<int> {
    seq(|frames|, i requires 0 <= i < |frames| => frames[i].now)
  }

  lemma {:induction false} TimesLogged(log: seq<Record>, frames: seq<Frame>)
    requires AllReached(log, frames)
    ensures FilterMap(RateTime, log) == Times(frames)
  {
    if frames != [] {
      var n := |frames| - 1;
      assert log == log[..n] + [log[n]];
      TimesLogged(log[..n], frames[..n]);
      FilterMapAppend(RateTime, log[..n], log[n]);
      LastTime(frames);
    }
  }

  lemma LastTime(frames: seq<Frame>)
    requires frames != []
    ensures Times(frames) == Times(frames[..|frames| - 1]) + [frames[|frames| - 1].now]
  {
  }

  lemma NotRateLimited(c: Config, s: Loop, sessionId: string, start: int, frames: seq<Frame>)
    requires c.Valid() && frames != [] && KeepsProtocol(c, start, frames)
    requires var before := frames[..|frames| - 1];
             s == ReadAll(c, Begin(sessionId, start), before) && AllHeard(s, before)
    ensures OnFrame(c, s.local, frames[|frames| - 1]).stage != RateLimited
  {
    var n := |frames| - 1;
    var before, f := frames[..n], frames[n];
    RateIsFixedWindow(c, sessionId, start, before, 0, 0);
    TimesLogged(s.log, before);
    RateOf(c, s, start, before);
    FrameRate(c, s.local, f);
    RateKept(c, start, frames);
  }

  lemma RateOf(c: Config, s: Loop, start: int, frames: seq<Frame>)
    requires RateWindowed(c, s, F.Window(start, 0), 0, 0) && FilterMap(RateTime, s.log) == Times(frames)
    ensures s.local.rate == F.After(RateRule(c), F.Window(start, 0), Times(frames))
  {
  }

  /** The rate window admits the last frame. */
  lemma RateKept(c: Config, start: int, frames: seq<Frame>)
    requires c.Valid() && frames != [] && KeepsProtocol(c, start, frames)
    ensures var n := |frames| - 1;
            var w := F.After(RateRule(c), F.Window(start, 0), Times(frames[..n]));
            F.Admits(RateRule(c), F.Tick(RateRule(c), Some(w), frames[n].now))
  {
    var n := |frames| - 1;
    var earlier, now := Times(frames[..n]), frames[n].now;
    LastTime(frames);
    TimesAreOrdered(c, start, frames);
    BurstIsLate(c, start, frames, n);
    F.AdmittedWhenApart(RateRule(c), start, earlier, now);
  }

  lemma TimesAreOrdered(c: Config, start: int, frames: seq<Frame>)
    requires KeepsProtocol(c, start, frames)
    ensures F.Ordered(Times(frames))
    ensures forall i :: 0 <= i < |frames| ==> start <= Times(frames)[i]
  {
  }

  lemma BurstIsLate(c: Config, start: int, frames: seq<Frame>, i: nat)
    requires KeepsProtocol(c, start, frames) && i < |frames|
    ensures c.maxMessagesPerSec <= i ==>
              F.Apart(RateRule(c), Times(frames)[i - c.maxMessagesPerSec], Times(frames)[i])
  {
  }

  /** No earlier frame blocks the last one's request id. */
  lemma NothingBlocks(c: Config, log: seq<Record>, start: int, frames: seq<Frame>, j: nat)
    requires KeepsProtocol(c, start, frames) && |log| == |frames| && frames != []
    requires forall i :: 0 <= i < |frames| ==> log[i].frame == frames[i]
    ensures !Blocks(log, c.requestDedupWindow, j, |frames| - 1)
  {
    var i := |frames| - 1;
    if j < i && Ask(log[j]).Some? && Ask(log[i]).Some? && Ask(log[j]).value.id == Ask(log[i]).value.id {
      assert SameRequest(frames[j], frames[i]);
    }
  }

  lemma NotRepeated(c: Config, s: Loop, sessionId: string, start: int, frames: seq<Frame>)
    requires c.Valid() && frames != [] && KeepsProtocol(c, start, frames)
    requires var before := frames[..|frames| - 1];
             s == ReadAll(c, Begin(sessionId, start), before) && AllHeard(s, before)
    ensures OnFrame(c, s.local, frames[|frames| - 1]).stage != RepeatedRequest
  {
    var n := |frames| - 1;
    var log := ReadAll(c, Begin(sessionId, start), frames).log;
    LastLogged(c, s, frames);
    RepeatedAsks(c, s.local, frames[n]);
    NeverBlocked(c, log, start, frames, n);
    if Ask(log[n]).Some? {
      DuplicateRequestExactly(c, sessionId, start, frames, n);
    }
  }

  lemma LastLogged(c: Config, s: Loop, frames: seq<Frame>)
    requires c.Valid() && frames != [] && AllHeard(s, frames[..|frames| - 1])
    ensures var n := |frames| - 1;
            var log := Read(c, s, frames[n]).log;
            && |log| == |frames| && (forall i :: 0 <= i < |frames| ==> log[i].frame == frames[i])
            && log[n].stage == OnFrame(c, s.local, frames[n]).stage
  {
  }

  lemma NeverBlocked(c: Config, log: seq<Record>, start: int, frames: seq<Frame>, last: nat)
    requires KeepsProtocol(c, start, frames) && |log| == |frames| == last + 1
    requires forall i :: 0 <= i < |frames| ==> log[i].frame == frames[i]
    ensures forall j: nat :: !Blocks(log, c.requestDedupWindow, j, last)
  {
    forall j: nat ensures !Blocks(log, c.requestDedupWindow, j, last) {
      NothingBlocks(c, log, start, frames, j);
    }
  }

  lemma RepeatedAsks(c: Config, l: Local, f: Frame)
    requires c.Valid()
    ensures OnFrame(c, l, f).stage == RepeatedRequest ==> Ask(Record(f, RepeatedRequest)).Some?
  {
    var (screened, stage) := Screen(c, l, f);
    if stage == Reached {
      ActKeeps(c, screened, f, f.body.value);
    }
  }

  lemma KnownActionsStay(c: Config, l: Local, f: Frame)
    requires c.Valid() && InForm(c, f) && OnFrame(c, l, f).stage == Reached
    ensures OnFrame(c, l, f).exit.None?
  {
  }

  lemma HeardNext(c: Config, s: Loop, sessionId: string, start: int, frames: seq<Frame>)
    requires c.Valid() && frames != [] && KeepsProtocol(c, start, frames)
    requires var before := frames[..|frames| - 1];
             s == ReadAll(c, Begin(sessionId, start), before) && AllHeard(s, before)
    ensures var o := OnFrame(c, s.local, frames[|frames| - 1]);
            o.stage == Reached && o.exit.None? && o.local.numbers.inbound == HighestNumber(frames)
  {
    var f := frames[|frames| - 1];
    NotRateLimited(c, s, sessionId, start, frames);
    NotRepeated(c, s, sessionId, start, frames);
    RefusalsInOrder(c, s.local, f);
    NextNumberIsHeard(c, s, f);
    KnownActionsStay(c, s.local, f);
  }

  /**
   A peer that keeps the protocol is never refused and never cut off: every frame of
   it gets to the action switch.
   */
  lemma {:induction false} GoodPeerIsHeard(c: Config, sessionId: string, start: int, frames: seq<Frame>)
    requires c.Valid() && KeepsProtocol(c, start, frames)
    ensures AllHeard(ReadAll(c, Begin(sessionId, start), frames), frames)
  {
    if frames != [] {
      var before := frames[..|frames| - 1];
      PrefixKeeps(c, start, frames);
      GoodPeerIsHeard(c, sessionId, start, before);
      var s := ReadAll(c, Begin(sessionId, start), before);
      HeardNext(c, s, sessionId, start, frames);
      OneMoreReached(s.log, frames);
    }
  }

  lemma OneMoreReached(log: seq<Record>, frames: seq<Frame>)
    requires frames != [] && AllReached(log, frames[..|frames| - 1])
    ensures AllReached(log + [Record(frames[|frames| - 1], Reached)], frames)
  {
  }
}
