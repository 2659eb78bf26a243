/**
 One WebSocket connection's sequence numbers (wsConnectionEntry in
 internal/api/ws/handler.go): 64-bit counters shared by the read loop and the
 latency-test dispatcher, each operation one critical section. Runs interleave
 the operations freely.
 */
module ConnectionEntries {
  const TWO64: int := 0x1_0000_0000_0000_0000

  type u64 = n: int | 0 <= n < TWO64

  function Increment(n: u64): u64 {
    (n + 1) % TWO64
  }

  datatype SeqState = SeqState(tracking: bool, inbound: u64, outbound: u64, peerAck: u64)

  const FRESH: SeqState := SeqState(false, 0, 0, 0)

  datatype Observation = Accepted | Gap | Duplicate | Invalid

  /** observeInboundSeq: new state, verdict, and the number that was expected. */
  function Observe(s: SeqState, seq_: u64): (SeqState, Observation, u64) {
    if !s.tracking then
      if seq_ == 0 then (s, Accepted, 0)
      else if seq_ != 1 then (s.(tracking := true), Gap, 1)
      else (s.(tracking := true, inbound := seq_), Accepted, 1)
    else
      var expected := Increment(s.inbound);
      if seq_ == 0 then (s, Invalid, expected)
      else if seq_ == expected then (s.(inbound := seq_), Accepted, expected)
      else if seq_ > expected then (s, Gap, expected)
      else (s, Duplicate, expected)
  }

  function ObserveAck(s: SeqState, ack: u64): SeqState {
    if ack > s.peerAck then s.(peerAck := ack) else s
  }

  class ConnectionEntry {
    const sessionId: string
    const conn: int
    var traderId: string
    var seqTrackingEnabled: bool
    var inboundSeq: u64
    var outboundSeq: u64
    var peerAck: u64
    var closeOnce: bool
    var closeSignals: nat

    ghost predicate Valid()
      reads this
    {
      closeSignals == if closeOnce then 1 else 0
    }

    ghost function View(): SeqState
      reads this
    {
      SeqState(seqTrackingEnabled, inboundSeq, outboundSeq, peerAck)
    }

    constructor (sessionId: string, conn: int)
      ensures Valid() && View() == FRESH && !closeOnce && traderId == ""
      ensures this.sessionId == sessionId && this.conn == conn
    {
      this.sessionId, this.conn := sessionId, conn;
      traderId := "";
      seqTrackingEnabled := false;
      inboundSeq, outboundSeq, peerAck := 0, 0, 0;
      closeOnce, closeSignals := false, 0;
    }

    method ObserveInboundSeq(received: u64) returns (verdict: Observation, expected: u64)
      modifies this`seqTrackingEnabled, this`inboundSeq
      ensures (View(), verdict, expected) == Observe(old(View()), received)
      ensures old(seqTrackingEnabled || inboundSeq == 0) ==>
                && (verdict == Accepted <==>
                      if received == 0 then !old(seqTrackingEnabled) else received == old(inboundSeq) + 1)
                && (verdict == Invalid <==> received == 0 && old(seqTrackingEnabled))
                && (verdict == Gap <==>
                      received > old(inboundSeq) + 1 || (received > 0 && old(inboundSeq) == 0xFFFF_FFFF_FFFF_FFFF))
                && inboundSeq == if verdict == Accepted && received > 0 then received else old(inboundSeq)
    {
      if !seqTrackingEnabled {
        if received == 0 {
          return Accepted, 0;
        }
        seqTrackingEnabled := true;
        expected := 1;
        if received != expected {
          return Gap, expected;
        }
        inboundSeq := received;
        return Accepted, expected;
      }
      expected := Increment(inboundSeq);
      if received == 0 {
        return Invalid, expected;
      }
      if received == expected {
        inboundSeq := received;
        return Accepted, expected;
      }
      if received > expected {
        return Gap, expected;
      }
      return Duplicate, expected;
    }

    method ObservePeerAck(ack: u64)
      modifies this`peerAck
      ensures View() == ObserveAck(old(View()), ack)
    {
      if ack == 0 {
        return;
      }
      if ack > peerAck {
        peerAck := ack;
      }
    }

    method NextOutboundSeqAck() returns (number: u64, ack: u64)
      modifies this`outboundSeq
      ensures View() == old(View()).(outbound := Increment(old(outboundSeq)))
      ensures number == outboundSeq && ack == inboundSeq
    {
      outboundSeq := Increment(outboundSeq);
      number, ack := outboundSeq, inboundSeq;
    }

    /** Closing twice signals once. */
    method MarkClosed()
      requires Valid()
      modifies this`closeOnce, this`closeSignals
      ensures Valid() && closeOnce && closeSignals == 1
    {
      if !closeOnce {
        closeOnce := true;
        closeSignals := closeSignals + 1;
      }
    }
  }

  // ---- Runs ----------------------------------------------------------------

  datatype Event = Inbound(received: u64) | PeerAck(ack: u64) | Outbound

  /** A number handed out, the ack it carries, and how many frames had been accepted by then. */
  datatype Sent = Sent(number: u64, ack: u64, acceptedBefore: nat)

  datatype Connection = Connection(state: SeqState, open: bool, accepted: seq<u64>, sent: seq<Sent>)

  /** A gap ends reading; senders may still take numbers until the entry is removed. */
  function Step(c: Connection, e: Event): Connection {
    match e
    case Inbound(received) =>
      if !c.open then c
      else
        var (state, verdict, _) := Observe(c.state, received);
        c.(state := state,
           open := verdict != Gap,
           accepted := if verdict == Accepted then c.accepted + [received] else c.accepted)
    case PeerAck(ack) => if c.open then c.(state := ObserveAck(c.state, ack)) else c
    case Outbound =>
      var state := c.state.(outbound := Increment(c.state.outbound));
      c.(state := state, sent := c.sent + [Sent(state.outbound, state.inbound, |c.accepted|)])
  }

  function Run(events: seq<Event>): Connection {
    if events == [] then Connection(FRESH, true, [], [])
    else Step(Run(events[..|events| - 1]), events[|events| - 1])
  }

  /** Some unnumbered frames, then 1, 2, ..., k. */
  ghost predicate InOrder(accepted: seq<u64>, k: nat) {
    && k <= |accepted|
    && (forall i :: 0 <= i < |accepted| - k ==> accepted[i] == 0)
    && (forall i :: |accepted| - k <= i < |accepted| ==> accepted[i] == i + 1 - (|accepted| - k))
  }

  ghost predicate Delivered(c: Connection) {
    && InOrder(c.accepted, c.state.inbound)
    && (!c.state.tracking ==> c.state.inbound == 0)
    && (c.state.tracking && c.open ==> c.state.inbound >= 1)
  }

  lemma StepDelivers(c: Connection, e: Event)
    requires Delivered(c)
    ensures Delivered(Step(c, e))
  {
  }

  /**
   Whatever the peer sends and however senders interleave, the accepted frames
   are unnumbered ones followed by exactly 1..k, each once and in order, where k
   is the inbound counter; no number is accepted again after 2^64 - 1.
   */
  lemma {:induction false} InOrderExactlyOnce(events: seq<Event>)
    ensures Delivered(Run(events))
  {
    if events != [] {
      InOrderExactlyOnce(events[..|events| - 1]);
      StepDelivers(Run(events[..|events| - 1]), events[|events| - 1]);
    }
  }

  // ---- What is accepted ------------------------------------------------------

  /** The largest number the peer has sent. */
  function Highest(events: seq<Event>): nat {
    if events == [] then 0
    else
      var before, e := Highest(events[..|events| - 1]), events[|events| - 1];
      if e.Inbound? && e.received > before then e.received else before
  }

  /** Unnumbered frames sent before the first numbered one. */
  function Leading(events: seq<Event>): nat {
    if events == [] then 0
    else
      var before := events[..|events| - 1];
      Leading(before) + if events[|events| - 1] == Inbound(0) && Highest(before) == 0 then 1 else 0
  }

  /** A peer that skips no number, and sends none after the largest one. */
  ghost predicate SkipsNothing(events: seq<Event>) {
    forall i :: 0 <= i < |events| && events[i].Inbound? && events[i].received > 0 ==>
      events[i].received <= Highest(events[..i]) + 1 && Highest(events[..i]) < 0xFFFF_FFFF_FFFF_FFFF
  }

  /** Open, with the unnumbered frames first and then 1, ..., k accepted. */
  ghost predicate HeardAll(c: Connection, zeros: nat, k: nat) {
    && c.open && c.state.inbound == k && (c.state.tracking <==> k > 0)
    && |c.accepted| == zeros + k
    && forall i :: 0 <= i < zeros + k ==> c.accepted[i] == if i < zeros then 0 else i + 1 - zeros
  }

  lemma SkipsNothingBefore(events: seq<Event>)
    requires SkipsNothing(events) && events != []
    ensures SkipsNothing(events[..|events| - 1])
  {
    forall i | 0 <= i < |events| - 1 ensures events[..|events| - 1][..i] == events[..i] {
    }
  }

  lemma HearsNext(c: Connection, e: Event, zeros: nat, k: nat)
    requires HeardAll(c, zeros, k)
    requires e.Inbound? && e.received > 0 ==> e.received <= k + 1 && k < TWO64 - 1
    ensures HeardAll(Step(c, e), zeros + (if e == Inbound(0) && k == 0 then 1 else 0),
                     if e.Inbound? && e.received > k then e.received else k)
  {
  }

  lemma SkipCloses(c: Connection, e: Event, zeros: nat, k: nat)
    requires HeardAll(c, zeros, k)
    requires e.Inbound? && e.received > 0 && (e.received > k + 1 || k == TWO64 - 1)
    ensures !Step(c, e).open
  {
  }

  lemma StaysClosed(c: Connection, e: Event)
    requires !c.open
    ensures !Step(c, e).open
  {
  }

  /**
   A peer that skips no number is heard in full: from any interleaving of its frames,
   repeats and acks with sends, exactly its leading unnumbered frames and 1, ..., n
   have been accepted, where n is the largest number sent; any other peer has been
   cut off.
   */
  lemma {:induction false} HeardExactly(events: seq<Event>)
    ensures SkipsNothing(events) ==> HeardAll(Run(events), Leading(events), Highest(events))
    ensures Run(events).open <==> SkipsNothing(events)
  {
    if events != [] {
      var n := |events| - 1;
      var before, e := events[..n], events[n];
      HeardExactly(before);
      HighestIsNumber(before);
      forall i | 0 <= i < n ensures before[..i] == events[..i] {
      }
      if !SkipsNothing(before) {
        StaysClosed(Run(before), e);
      } else if e.Inbound? && e.received > 0 && (e.received > Highest(before) + 1 || Highest(before) == TWO64 - 1) {
        SkipCloses(Run(before), e, Leading(before), Highest(before));
      } else {
        HearsNext(Run(before), e, Leading(before), Highest(before));
      }
    }
  }

  lemma {:induction false} HighestIsNumber(events: seq<Event>)
    ensures Highest(events) < TWO64
  {
    if events != [] {
      HighestIsNumber(events[..|events| - 1]);
    }
  }

  /** The ack kept is the largest one seen: some ack of the peer, or none, and none larger. */
  lemma {:induction false} PeerAckIsLargest(events: seq<Event>)
    requires SkipsNothing(events)
    ensures forall e :: e in events && e.PeerAck? ==> e.ack <= Run(events).state.peerAck
    ensures Run(events).state.peerAck == 0 || PeerAck(Run(events).state.peerAck) in events
  {
    if events != [] {
      var before, e := events[..|events| - 1], events[|events| - 1];
      assert events == before + [e];
      SkipsNothingBefore(events);
      PeerAckIsLargest(before);
      HeardExactly(before);
    }
  }

  /** After the largest number every numbered frame is a gap and every other one is invalid. */
  lemma NoWrapAround(s: SeqState, received: u64)
    requires s.tracking && s.inbound == TWO64 - 1
    ensures Observe(s, received).1 == if received == 0 then Invalid else Gap
    ensures Observe(s, received).0 == s
  {
  }

  ghost predicate Numbered(c: Connection) {
    && c.state.outbound == |c.sent| % TWO64
    && (forall i :: 0 <= i < |c.sent| ==> c.sent[i].number == (i + 1) % TWO64)
    && (forall i, j :: 0 <= i <= j < |c.sent| ==> c.sent[i].ack <= c.sent[j].ack)
    && (forall i :: 0 <= i < |c.sent| ==>
          && c.sent[i].ack <= c.state.inbound
          && c.sent[i].acceptedBefore <= |c.accepted|
          && InOrder(c.accepted[..c.sent[i].acceptedBefore], c.sent[i].ack))
  }

  lemma WrapStep(n: nat)
    ensures Increment(n % TWO64) == (n + 1) % TWO64
  {
  }

  lemma StepNumbers(c: Connection, e: Event)
    requires Delivered(c) && Numbered(c)
    ensures Numbered(Step(c, e))
  {
    match e
    case Inbound(received) => InboundKeepsNumbers(c, received);
    case PeerAck(_) =>
    case Outbound =>
      WrapStep(|c.sent|);
      assert c.accepted[..|c.accepted|] == c.accepted;
  }

  lemma InboundKeepsNumbers(c: Connection, received: u64)
    requires Delivered(c) && Numbered(c)
    ensures Numbered(Step(c, Inbound(received)))
  {
    var d := Step(c, Inbound(received));
    assert c.state.inbound <= d.state.inbound && |c.accepted| <= |d.accepted|;
    forall i | 0 <= i < |c.sent|
      ensures d.accepted[..c.sent[i].acceptedBefore] == c.accepted[..c.sent[i].acceptedBefore]
    {
    }
  }

  /**
   Under any interleaving of the read loop and the dispatcher the numbers handed
   out are 1, 2, 3, ... (wrapping at 2^64), acks never fall along them, and an
   ack of a certifies that frames 1..a had each been accepted exactly once.
   */
  lemma {:induction false} OutboundNumbering(events: seq<Event>)
    ensures Numbered(Run(events))
  {
    if events != [] {
      OutboundNumbering(events[..|events| - 1]);
      InOrderExactlyOnce(events[..|events| - 1]);
      StepNumbers(Run(events[..|events| - 1]), events[|events| - 1]);
    }
  }

  /** No number repeats before the counter wraps. */
  lemma NoRepeats(events: seq<Event>, i: nat, j: nat)
    requires i < j < |Run(events).sent| && j - i < TWO64
    ensures Run(events).sent[i].number != Run(events).sent[j].number
  {
    OutboundNumbering(events);
    var m, n := i + 1, j + 1;
    assert n - m == TWO64 * (n / TWO64 - m / TWO64) + (n % TWO64 - m % TWO64);
  }
}
