/**
 Connections, registrations, removals and latency-test dispatches interleaved
 arbitrarily (internal/api/ws/handler.go, internal/scheduler/scheduler.go). A
 dispatch takes four steps: find the entry of a session, compare traders without a
 lock, find the entry of the connection, take a number from it. An entry outlives
 its removal for those who hold it. Session ids and connections are fresh.
 */
module DispatchRuns {
  import opened Sequences
  import opened ConnectionEntries
  import opened ConnectionIndex

  /** bound: the trader of the entry the test was numbered on; None: it went out without a number. */
  datatype Dispatch =
    | Refused(reason: LookupResult)
    | Found(sessionId: string, requested: string)
    | Matched(sessionId: string, requested: string)
    | Chosen(sessionId: string, requested: string, target: Option<string>)
    | Done(sessionId: string, requested: string, number: u64, bound: Option<string>)

  /**
   entries: by session id, in the maps or not; live and byConn: the two maps; closes:
   how often each session's close signal has fired; registered: the trader each
   session registered as; published: the pairs that snapshots have shown so far.
   */
  datatype State = State(
    entries: map<string, Slot>,
    live: set<string>,
    byConn: map<int, string>,
    closes: map<string, nat>,
    registered: map<string, string>,
    published: map<string, string>,
    dispatches: map<nat, Dispatch>)

  const INITIAL: State := State(map[], {}, map[], map[], map[], map[], map[])

  datatype Event =
    | Connect(id: string, conn: int)
    | Register(id: string, traderId: string)
    | Publish(id: string)
    | Remove(id: string)
    | Look(d: nat, id: string, requested: string)
    | Compare(d: nat)
    | Find(d: nat)
    | Number(d: nat)
    | OtherFrame(id: string)

  // ---- Events that can happen ------------------------------------------

  predicate CanConnect(s: State, id: string, conn: int) {
    id != "" && id !in s.entries && forall k :: k in s.entries ==> s.entries[k].conn != conn
  }

  /** A session registers once, while its loop runs. */
  predicate CanRegister(s: State, id: string, traderId: string) {
    traderId != "" && id in s.live && id in s.entries && id !in s.registered
  }

  predicate CanRemove(s: State, id: string) {
    id != "" && id in s.live && id in s.entries
  }

  /** The entry a number is taken from: by a test that found one, or by any other frame. */
  function NumberedBy(s: State, e: Event): Option<string> {
    match e
    case Number(d) => if d in s.dispatches && s.dispatches[d].Chosen? then s.dispatches[d].target else None
    case OtherFrame(id) => Some(id)
    case _ => None
  }

  // ---- One step, part by part --------------------------------------------

  function Numbered(slot: Slot): Slot {
    slot.(numbers := slot.numbers.(outbound := Increment(slot.numbers.outbound)))
  }

  function NextEntries(s: State, e: Event): map<string, Slot> {
    match e
    case Connect(id, conn) => if CanConnect(s, id, conn) then s.entries[id := Slot(conn, "", FRESH)] else s.entries
    case Register(id, traderId) =>
      if CanRegister(s, id, traderId) then s.entries[id := s.entries[id].(traderId := traderId)] else s.entries
    case _ =>
      var n := NumberedBy(s, e);
      if n.Some? && n.value in s.entries then s.entries[n.value := Numbered(s.entries[n.value])] else s.entries
  }

  function NextLive(s: State, e: Event): set<string> {
    if e.Connect? && CanConnect(s, e.id, e.conn) then s.live + {e.id}
    else if e.Remove? && CanRemove(s, e.id) then s.live - {e.id}
    else s.live
  }

  function NextByConn(s: State, e: Event): map<int, string> {
    if e.Connect? && CanConnect(s, e.id, e.conn) then s.byConn[e.conn := e.id]
    else if e.Remove? && CanRemove(s, e.id) then s.byConn - {s.entries[e.id].conn}
    else s.byConn
  }

  function ClosesOf(s: State, id: string): nat {
    if id in s.closes then s.closes[id] else 0
  }

  function NextCloses(s: State, e: Event): map<string, nat> {
    if e.Remove? && CanRemove(s, e.id) then s.closes[e.id := ClosesOf(s, e.id) + 1] else s.closes
  }

  function NextRegistered(s: State, e: Event): map<string, string> {
    if e.Register? && CanRegister(s, e.id, e.traderId) then s.registered[e.id := e.traderId] else s.registered
  }

  function NextPublished(s: State, e: Event): map<string, string> {
    if e.Publish? && e.id in s.registered then s.published[e.id := s.registered[e.id]] else s.published
  }

  /** connectionsByConn, read as the session id of the entry found. */
  function TargetOf(s: State, conn: int): Option<string> {
    if conn in s.byConn then Some(s.byConn[conn]) else None
  }

  /** The next step of one dispatch. */
  function Advanced(s: State, r: Dispatch, e: Event): Dispatch {
    match r
    case Found(id, requested) =>
      if !e.Compare? || id !in s.entries then r
      else if Matches(requested, s.entries[id].traderId) then Matched(id, requested)
      else Refused(WrongTrader)
    case Matched(id, requested) =>
      if !e.Find? || id !in s.entries then r else Chosen(id, requested, TargetOf(s, s.entries[id].conn))
    case Chosen(id, requested, target) =>
      if !e.Number? then r
      else if target.None? || target.value !in s.entries then Done(id, requested, 0, None)
      else
        var entry := Numbered(s.entries[target.value]);
        Done(id, requested, entry.numbers.outbound, Some(entry.traderId))
    case _ => r
  }

  function NextDispatches(s: State, e: Event): map<nat, Dispatch> {
    if e.Look? then
      if e.d in s.dispatches then s.dispatches
      else s.dispatches[e.d := if e.id == "" then Refused(SessionRequired)
                               else if e.id !in s.live then Refused(NotConnected)
                               else Found(e.id, e.requested)]
    else if (e.Compare? || e.Find? || e.Number?) && e.d in s.dispatches then
      s.dispatches[e.d := Advanced(s, s.dispatches[e.d], e)]
    else s.dispatches
  }

  function Step(s: State, e: Event): State {
    State(NextEntries(s, e), NextLive(s, e), NextByConn(s, e), NextCloses(s, e),
          NextRegistered(s, e), NextPublished(s, e), NextDispatches(s, e))
  }

  function RunFrom(s: State, events: seq<Event>): State
    decreases |events|
  {
    if events == [] then s else Step(RunFrom(s, events[..|events| - 1]), events[|events| - 1])
  }

  function Run(events: seq<Event>): State {
    RunFrom(INITIAL, events)
  }

  // ---- What every step keeps -------------------------------------------

  /** The maps hold the same entries; connections are never reused. */
  ghost predicate Linked(entries: map<string, Slot>, live: set<string>, byConn: map<int, string>) {
    && "" !in entries
    && (forall a, b :: a in entries && b in entries && a != b ==> entries[a].conn != entries[b].conn)
    && (forall id :: id in live ==> id in entries && entries[id].conn in byConn && byConn[entries[id].conn] == id)
    && (forall c :: c in byConn ==> byConn[c] in live && byConn[c] in entries && entries[byConn[c]].conn == c)
  }

  ghost predicate ClosedOnce(s: State) {
    && (forall id :: id in s.closes <==> id in s.entries && id !in s.live)
    && (forall id :: id in s.closes ==> s.closes[id] == 1)
  }

  /** An entry is bound to the trader its session registered as. */
  ghost predicate BoundOnce(s: State) {
    && (forall id :: id in s.registered ==> id in s.entries && s.registered[id] != "")
    && (forall id :: id in s.entries ==> s.entries[id].traderId == if id in s.registered then s.registered[id] else "")
    && (forall id :: id in s.published ==> id in s.registered && s.published[id] == s.registered[id])
  }

  ghost predicate Grounded(s: State, r: Dispatch) {
    && (r.Refused? || r.sessionId in s.entries)
    && (r.Chosen? && r.target.Some? ==> r.target.value == r.sessionId)
  }

  ghost predicate Inv(s: State) {
    Linked(s.entries, s.live, s.byConn) && ClosedOnce(s) && BoundOnce(s)
    && forall d :: d in s.dispatches ==> Grounded(s, s.dispatches[d])
  }

  /** Entries stay, keep their connection, and are bound at most once. */
  lemma EntryStep(s: State, e: Event, id: string)
    requires id in s.entries
    ensures var t := NextEntries(s, e);
            && id in t && t[id].conn == s.entries[id].conn
            && t[id].traderId == if e.Register? && e.id == id && CanRegister(s, id, e.traderId) then e.traderId
                                 else s.entries[id].traderId
  {
  }

  lemma NewEntry(s: State, e: Event, id: string)
    requires id in NextEntries(s, e) && id !in s.entries
    ensures e.Connect? && e.id == id && CanConnect(s, id, e.conn) && NextEntries(s, e)[id] == Slot(e.conn, "", FRESH)
  {
  }

  lemma LinkedStep(s: State, e: Event)
    requires Linked(s.entries, s.live, s.byConn)
    ensures Linked(NextEntries(s, e), NextLive(s, e), NextByConn(s, e))
  {
    var t := NextEntries(s, e);
    forall id | id in s.entries ensures id in t && t[id].conn == s.entries[id].conn {
      EntryStep(s, e, id);
    }
    forall id | id in t && id !in s.entries
      ensures e.Connect? && e.id == id && CanConnect(s, id, e.conn) && t[id].conn == e.conn
    {
      NewEntry(s, e, id);
    }
  }

  lemma ClosedStep(s: State, e: Event)
    requires Linked(s.entries, s.live, s.byConn) && ClosedOnce(s)
    ensures ClosedOnce(Step(s, e))
  {
    forall id
      ensures id in NextEntries(s, e) <==> id in s.entries || (e.Connect? && e.id == id && CanConnect(s, id, e.conn))
    {
      if id in s.entries {
        EntryStep(s, e, id);
      } else if id in NextEntries(s, e) {
        NewEntry(s, e, id);
      }
    }
  }

  lemma BoundStep(s: State, e: Event)
    requires BoundOnce(s)
    ensures BoundOnce(Step(s, e))
  {
    forall id | id in Step(s, e).entries
      ensures Step(s, e).entries[id].traderId == if id in NextRegistered(s, e) then NextRegistered(s, e)[id] else ""
    {
      if id in s.entries {
        EntryStep(s, e, id);
      } else {
        NewEntry(s, e, id);
      }
    }
    forall id | id in NextRegistered(s, e) ensures id in NextEntries(s, e) {
      EntryStep(s, e, id);
    }
  }

  lemma GroundedStep(s: State, e: Event, d: nat)
    requires Inv(s) && d in NextDispatches(s, e)
    ensures Grounded(Step(s, e), NextDispatches(s, e)[d])
  {
    var r := NextDispatches(s, e)[d];
    if d in s.dispatches {
      assert Grounded(s, s.dispatches[d]);
      AdvancedGrounded(s, s.dispatches[d], e);
    }
    if !r.Refused? {
      assert r.sessionId in s.entries;
      EntryStep(s, e, r.sessionId);
    }
  }

  lemma AdvancedGrounded(s: State, r: Dispatch, e: Event)
    requires Linked(s.entries, s.live, s.byConn) && Grounded(s, r)
    ensures Grounded(s, Advanced(s, r, e))
  {
  }

  lemma StepKeeps(s: State, e: Event)
    requires Inv(s)
    ensures Inv(Step(s, e))
  {
    LinkedStep(s, e);
    ClosedStep(s, e);
    BoundStep(s, e);
    forall d | d in Step(s, e).dispatches ensures Grounded(Step(s, e), Step(s, e).dispatches[d]) {
      GroundedStep(s, e, d);
    }
  }

  /** The two maps as the index holds them. */
  function MapsOf(s: State): Maps {
    Maps(map id | id in s.live && id in s.entries :: s.entries[id], s.byConn)
  }

  /** The steps are those of the index. */
  lemma ConnectIsAdded(s: State, id: string, conn: int)
    requires Linked(s.entries, s.live, s.byConn) && CanConnect(s, id, conn)
    ensures MapsOf(Step(s, Connect(id, conn))) == Added(MapsOf(s), id, conn)
  {
    var t := Step(s, Connect(id, conn));
    assert MapsOf(t).sessions == MapsOf(s).sessions[id := Slot(conn, "", FRESH)];
  }

  lemma RegisterIsBound(s: State, id: string, traderId: string)
    requires Linked(s.entries, s.live, s.byConn) && id !in s.registered
    ensures MapsOf(Step(s, Register(id, traderId))) == Bound(MapsOf(s), id, traderId)
  {
    var t := Step(s, Register(id, traderId));
    if CanRegister(s, id, traderId) {
      assert MapsOf(t).sessions == MapsOf(s).sessions[id := s.entries[id].(traderId := traderId)];
    } else {
      assert t.entries == s.entries && t.live == s.live;
    }
  }

  lemma RemoveIsRemoved(s: State, id: string)
    requires Linked(s.entries, s.live, s.byConn)
    ensures MapsOf(Step(s, Remove(id))) == Removed(MapsOf(s), id)
  {
    var t := Step(s, Remove(id));
    assert t.entries == s.entries;
    if CanRemove(s, id) {
      assert MapsOf(t).sessions == MapsOf(s).sessions - {id};
    }
  }

  lemma TakenFromIndex(s: State, e: Event, id: string, conn: int)
    requires Linked(s.entries, s.live, s.byConn) && conn in s.byConn && s.byConn[conn] == id
    requires (e.Number? || e.OtherFrame?) && NumberedBy(s, e) == Some(id)
    ensures var (maps, number, _) := TakeNumber(MapsOf(s), conn);
            MapsOf(Step(s, e)) == maps && number == Numbered(s.entries[id]).numbers.outbound
  {
    assert MapsOf(Step(s, e)).sessions == MapsOf(s).sessions[id := Numbered(s.entries[id])];
  }

  lemma UndisturbedDispatch(s: State, d: nat)
    requires Inv(s) && d in s.dispatches && s.dispatches[d].Matched? && s.dispatches[d].sessionId in s.live
    ensures var t := Step(s, Find(d));
            var (maps, number, _) := TakeNumber(MapsOf(s), s.entries[s.dispatches[d].sessionId].conn);
            && MapsOf(Step(t, Number(d))) == maps
            && d in Step(t, Number(d)).dispatches
            && Step(t, Number(d)).dispatches[d].Done? && Step(t, Number(d)).dispatches[d].number == number
  {
    var id := s.dispatches[d].sessionId;
    var t := Step(s, Find(d));
    assert t == s.(dispatches := s.dispatches[d := Chosen(id, s.dispatches[d].requested, Some(id))]);
    assert MapsOf(t) == MapsOf(s);
    TakenFromIndex(t, Number(d), id, s.entries[id].conn);
  }

  /**
   In every run the two maps are mutual inverses, so no two sessions share a
   connection, and each session's close signal has fired exactly once if it has
   been removed, however often that was asked for, and not at all before.
   */
  lemma {:induction false} IndexesStayInverse(events: seq<Event>)
    ensures Inv(Run(events))
    ensures Inverse(MapsOf(Run(events)))
    ensures var m := MapsOf(Run(events));
            forall a, b :: a in m.sessions && b in m.sessions && a != b ==> m.sessions[a].conn != m.sessions[b].conn
    ensures forall id :: id in Run(events).entries ==>
              ClosesOf(Run(events), id) == if id in Run(events).live then 0 else 1
  {
    if events != [] {
      IndexesStayInverse(events[..|events| - 1]);
      StepKeeps(Run(events[..|events| - 1]), events[|events| - 1]);
    }
  }

  // ---- One dispatch, by any caller ---------------------------------------

  /** What has become of a session: whether it was removed, and the trader its entry is bound to, if any. */
  datatype Fate = Fate(removed: bool, trader: string)

  /** The first registration before the removal binds an unbound entry. */
  function FateStep(f: Fate, e: Event, id: string): Fate {
    if e == Remove(id) then f.(removed := true)
    else if e.Register? && e.id == id && e.traderId != "" && !f.removed && f.trader == "" then f.(trader := e.traderId)
    else f
  }

  function FateAfter(f: Fate, events: seq<Event>, id: string): Fate {
    if events == [] then f else FateStep(FateAfter(f, events[..|events| - 1], id), events[|events| - 1], id)
  }

  lemma {:induction false} RemovedExactly(f: Fate, events: seq<Event>, id: string)
    ensures FateAfter(f, events, id).removed <==> f.removed || Remove(id) in events
  {
    if events != [] {
      var before, e := events[..|events| - 1], events[|events| - 1];
      RemovedExactly(f, before, id);
      assert events == before + [e];
    }
  }

  ghost predicate Tracks(t: State, id: string, f: Fate) {
    id in t.entries && (id in t.live <==> !f.removed) && t.entries[id].traderId == f.trader
  }

  lemma LiveStep(t: State, e: Event, id: string)
    requires Inv(t) && id in t.entries
    ensures id in NextLive(t, e) <==> id in t.live && e != Remove(id)
    ensures e.Register? && e.id == id ==>
              (CanRegister(t, id, e.traderId) <==> e.traderId != "" && id in t.live && t.entries[id].traderId == "")
  {
  }

  lemma TracksStep(t: State, e: Event, id: string, f: Fate)
    requires Inv(t) && Tracks(t, id, f)
    ensures Inv(Step(t, e)) && Tracks(Step(t, e), id, FateStep(f, e, id))
  {
    StepKeeps(t, e);
    EntryStep(t, e, id);
    LiveStep(t, e, id);
  }

  /** Events of other dispatches. */
  predicate Apart(events: seq<Event>, d: nat) {
    Compare(d) !in events && Find(d) !in events && Number(d) !in events
  }

  lemma DispatchWaits(t: State, e: Event, d: nat)
    requires d in t.dispatches && e != Compare(d) && e != Find(d) && e != Number(d)
    ensures d in Step(t, e).dispatches && Step(t, e).dispatches[d] == t.dispatches[d]
  {
  }

  /** Meanwhile the session meets its fate and the dispatch waits. */
  ghost predicate Waiting(t: State, id: string, f: Fate, d: nat, r: Dispatch) {
    Inv(t) && Tracks(t, id, f) && d in t.dispatches && t.dispatches[d] == r
  }

  lemma {:induction false} Meanwhile(t: State, events: seq<Event>, id: string, f: Fate, d: nat, r: Dispatch)
    requires Waiting(t, id, f, d, r) && Apart(events, d)
    ensures Waiting(RunFrom(t, events), id, FateAfter(f, events, id), d, r)
    decreases |events|
  {
    if events != [] {
      var before, e := events[..|events| - 1], events[|events| - 1];
      assert e in events;
      Meanwhile(t, before, id, f, d, r);
      TracksStep(RunFrom(t, before), e, id, FateAfter(f, before, id));
      DispatchWaits(RunFrom(t, before), e, d);
    }
  }

  lemma LookFinds(s: State, d: nat, id: string, requested: string)
    requires Inv(s) && d !in s.dispatches && id in s.live && id in s.entries
    ensures Waiting(Step(s, Look(d, id, requested)), id, Fate(false, s.entries[id].traderId), d, Found(id, requested))
  {
    TracksStep(s, Look(d, id, requested), id, Fate(false, s.entries[id].traderId));
  }

  /** The comparison sees the trader bound by then. */
  lemma CompareStep(t: State, id: string, f: Fate, d: nat, requested: string)
    requires Waiting(t, id, f, d, Found(id, requested))
    ensures Waiting(Step(t, Compare(d)), id, f, d,
                    if Matches(requested, f.trader) then Matched(id, requested) else Refused(WrongTrader))
  {
    TracksStep(t, Compare(d), id, f);
  }

  /** The connection is found exactly while the session is in the maps. */
  lemma FindStep(t: State, id: string, f: Fate, d: nat, requested: string)
    requires Waiting(t, id, f, d, Matched(id, requested))
    ensures Waiting(Step(t, Find(d)), id, f, d, Chosen(id, requested, if f.removed then None else Some(id)))
  {
    TracksStep(t, Find(d), id, f);
  }

  /** The number is the entry's next one, removed by now or not. */
  lemma NumberStep(t: State, id: string, f: Fate, d: nat, requested: string, target: Option<string>)
    requires Waiting(t, id, f, d, Chosen(id, requested, target)) && (target.Some? ==> target.value == id)
    ensures var u := Step(t, Number(d));
            && d in u.dispatches
            && (target.None? ==> u.dispatches[d] == Done(id, requested, 0, None) && u.entries == t.entries)
            && (target.Some? ==>
                  u.dispatches[d] == Done(id, requested, Increment(t.entries[id].numbers.outbound), Some(f.trader)))
  {
  }

  /** A dispatch with any events between its four steps, up to the last but one. */
  function Compared(s: State, d: nat, id: string, requested: string, m1: seq<Event>): State {
    Step(RunFrom(Step(s, Look(d, id, requested)), m1), Compare(d))
  }

  function Resolved(s: State, d: nat, id: string, requested: string,
                    m1: seq<Event>, m2: seq<Event>, m3: seq<Event>): State {
    RunFrom(Step(RunFrom(Compared(s, d, id, requested, m1), m2), Find(d)), m3)
  }

  /** A dispatch is refused at the comparison exactly when the trader bound by then does not match. */
  lemma ComparedExactly(s: State, d: nat, id: string, requested: string, m1: seq<Event>)
    requires Inv(s) && d !in s.dispatches && id in s.live && id in s.entries && Apart(m1, d)
    ensures var f := FateAfter(Fate(false, s.entries[id].traderId), m1, id);
            Waiting(Compared(s, d, id, requested, m1), id, f, d,
                    if requested == "" || f.trader == "" || requested == f.trader then Matched(id, requested)
                    else Refused(WrongTrader))
  {
    var f := Fate(false, s.entries[id].traderId);
    var t := Step(s, Look(d, id, requested));
    LookFinds(s, d, id, requested);
    Meanwhile(t, m1, id, f, d, Found(id, requested));
    CompareStep(RunFrom(t, m1), id, FateAfter(f, m1, id), d, requested);
  }

  /**
   A dispatch by any caller that gets past the comparison: its test is numbered
   exactly when the session was not removed before its connection is looked up, and
   then on the entry of that session, whose trader is the one bound at the first
   lookup or else the first to register on it since.
   */
  lemma DispatchedExactly(s: State, d: nat, id: string, requested: string,
                          m1: seq<Event>, m2: seq<Event>, m3: seq<Event>)
    requires Inv(s) && d !in s.dispatches && id in s.live && id in s.entries
    requires Apart(m1, d) && Apart(m2, d) && Apart(m3, d)
    requires FateAfter(Fate(false, s.entries[id].traderId), m1, id).trader in {"", requested} || requested == ""
    ensures var t := Resolved(s, d, id, requested, m1, m2, m3);
            var u := Step(t, Number(d));
            var f := FateAfter(FateAfter(FateAfter(Fate(false, s.entries[id].traderId), m1, id), m2, id), m3, id);
            && id in t.entries && d in u.dispatches
            && (Remove(id) in m1 || Remove(id) in m2 ==>
                  u.dispatches[d] == Done(id, requested, 0, None) && u.entries == t.entries)
            && (Remove(id) !in m1 && Remove(id) !in m2 ==>
                  u.dispatches[d] == Done(id, requested, Increment(t.entries[id].numbers.outbound), Some(f.trader)))
  {
    var f0 := Fate(false, s.entries[id].traderId);
    ComparedExactly(s, d, id, requested, m1);
    var t1, f1 := Compared(s, d, id, requested, m1), FateAfter(f0, m1, id);
    Meanwhile(t1, m2, id, f1, d, Matched(id, requested));
    var t2, f2 := RunFrom(t1, m2), FateAfter(f1, m2, id);
    RemovedExactly(f0, m1, id);
    RemovedExactly(f1, m2, id);
    FindStep(t2, id, f2, d, requested);
    var target := if f2.removed then None else Some(id);
    Meanwhile(Step(t2, Find(d)), m3, id, f2, d, Chosen(id, requested, target));
    NumberStep(RunFrom(Step(t2, Find(d)), m3), id, FateAfter(f2, m3, id), d, requested, target);
  }

  /**
   For an arbitrary caller the comparison is not enough: a test goes out without a
   number when the session is removed after it, and to another trader when it names
   a session that is not bound yet.
   */
  lemma ComparisonIsNotEnough()
    ensures Run([Connect("s", 1), Look(0, "s", "t"), Compare(0), Remove("s"), Find(0), Number(0)]).dispatches
            == map[0 := Done("s", "t", 0, None)]
    ensures Run([Connect("s", 1), Look(0, "s", "t"), Compare(0), Register("s", "u"), Find(0), Number(0)]).dispatches
            == map[0 := Done("s", "t", 1, Some("u"))]
  {
    SixSteps([Connect("s", 1), Look(0, "s", "t"), Compare(0), Remove("s"), Find(0), Number(0)]);
    SixSteps([Connect("s", 1), Look(0, "s", "t"), Compare(0), Register("s", "u"), Find(0), Number(0)]);
    ToMatched();
    RemovedBeforeFind();
    RegisteredBeforeFind();
  }

  /** A dispatch to session s on connection 1 has passed the comparison. */
  const MATCHED: State :=
    State(map["s" := Slot(1, "", FRESH)], {"s"}, map[1 := "s"], map[], map[], map[], map[0 := Matched("s", "t")])

  lemma ToMatched()
    ensures Step(Step(Step(INITIAL, Connect("s", 1)), Look(0, "s", "t")), Compare(0)) == MATCHED
  {
    var s1 := Step(INITIAL, Connect("s", 1));
    assert s1 == MATCHED.(dispatches := map[]);
    var s2 := Step(s1, Look(0, "s", "t"));
    assert s2 == MATCHED.(dispatches := map[0 := Found("s", "t")]);
  }

  lemma RemovedBeforeFind()
    ensures Step(Step(Step(MATCHED, Remove("s")), Find(0)), Number(0)).dispatches == map[0 := Done("s", "t", 0, None)]
  {
    var s4 := Step(MATCHED, Remove("s"));
    assert s4.entries == MATCHED.entries && s4.byConn == map[] && s4.dispatches == MATCHED.dispatches;
    var s5 := Step(s4, Find(0));
    assert s5.dispatches == map[0 := Chosen("s", "t", None)];
  }

  lemma RegisteredBeforeFind()
    ensures Step(Step(Step(MATCHED, Register("s", "u")), Find(0)), Number(0)).dispatches
            == map[0 := Done("s", "t", 1, Some("u"))]
  {
    var s4 := Step(MATCHED, Register("s", "u"));
    assert s4.entries == map["s" := Slot(1, "u", FRESH)] && s4.byConn == MATCHED.byConn
           && s4.dispatches == MATCHED.dispatches;
    var s5 := Step(s4, Find(0));
    assert s5.entries == s4.entries && s5.dispatches == map[0 := Chosen("s", "t", Some("s"))];
  }

  lemma SixSteps(e: seq<Event>)
    requires |e| == 6
    ensures Run(e) == Step(Step(Step(Step(Step(Step(INITIAL, e[0]), e[1]), e[2]), e[3]), e[4]), e[5])
  {
    OneMore(e, 0);
    OneMore(e, 1);
    OneMore(e, 2);
    OneMore(e, 3);
    OneMore(e, 4);
    OneMore(e, 5);
    assert e[..6] == e;
  }

  lemma OneMore(e: seq<Event>, n: nat)
    requires n < |e|
    ensures RunFrom(INITIAL, e[..n + 1]) == Step(RunFrom(INITIAL, e[..n]), e[n])
    ensures n == 0 ==> RunFrom(INITIAL, e[..n]) == INITIAL
  {
    assert e[..n + 1][..n] == e[..n];
  }

  // ---- The dispatches the program makes --------------------------------------

  /** The latency sweep names only pairs that a snapshot has shown. */
  ghost predicate FromSweep(s: State, e: Event) {
    e.Look? ==> e.id in s.published && e.requested == s.published[e.id]
  }

  ghost predicate SweepsOnly(events: seq<Event>) {
    forall i :: 0 <= i < |events| ==> FromSweep(Run(events[..i]), events[i])
  }

  ghost predicate Sweeping(s: State, r: Dispatch) {
    match r
    case Refused(reason) => reason == NotConnected
    case Done(id, requested, number, bound) =>
      id in s.published && requested == s.published[id]
        && (if bound.Some? then bound.value == requested else number == 0)
    case _ => r.sessionId in s.published && r.requested == s.published[r.sessionId]
  }

  lemma PublishedTraderIsBound(s: State, id: string)
    requires BoundOnce(s) && id in s.published
    ensures id in s.entries && s.entries[id].traderId == s.published[id] != ""
  {
  }

  lemma PublishedStays(s: State, e: Event, id: string)
    requires BoundOnce(s) && id in s.published
    ensures id in NextPublished(s, e) && NextPublished(s, e)[id] == s.published[id]
  {
  }

  lemma AdvancedSweeps(s: State, r: Dispatch, e: Event)
    requires BoundOnce(s) && Grounded(s, r) && Sweeping(s, r)
    ensures Sweeping(s, Advanced(s, r, e))
  {
    if !r.Refused? {
      PublishedTraderIsBound(s, r.sessionId);
    }
  }

  lemma SweepStep(s: State, e: Event, d: nat)
    requires Inv(s) && FromSweep(s, e) && d in NextDispatches(s, e)
    requires d in s.dispatches ==> Sweeping(s, s.dispatches[d])
    ensures Sweeping(Step(s, e), NextDispatches(s, e)[d])
  {
    var r := NextDispatches(s, e)[d];
    if d in s.dispatches {
      assert Grounded(s, s.dispatches[d]);
      AdvancedSweeps(s, s.dispatches[d], e);
    } else {
      assert e.Look? && e.id in s.published;
      PublishedTraderIsBound(s, e.id);
    }
    assert Sweeping(s, r);
    if !r.Refused? {
      PublishedStays(s, e, r.sessionId);
    }
  }

  /**
   In any run whose dispatches are the sweep's, a test is refused only for a session
   that is no longer connected, and one that goes out with a number goes to the
   trader it names.
   */
  lemma {:induction false} SweptTestsReachTheirTrader(events: seq<Event>)
    requires SweepsOnly(events)
    ensures forall d :: d in Run(events).dispatches ==> Sweeping(Run(events), Run(events).dispatches[d])
  {
    if events != [] {
      var before, e := events[..|events| - 1], events[|events| - 1];
      forall i | 0 <= i < |before| ensures FromSweep(Run(before[..i]), before[i]) {
        assert before[..i] == events[..i];
      }
      SweptTestsReachTheirTrader(before);
      IndexesStayInverse(before);
      forall d | d in Run(events).dispatches ensures Sweeping(Run(events), Run(events).dispatches[d]) {
        SweepStep(Run(before), e, d);
      }
    }
  }
}
