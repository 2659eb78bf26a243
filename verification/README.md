# cts-core: a verified model of trader sessions and task assignment

cts-core keeps a fleet of trader clients connected over WebSocket, remembers in a
database which connection owns which trader, and periodically assigns a task to
the best session. This project models three parts of it and proves what they
promise over whole runs:

- **the trader protocol** - one read loop per connection with a fixed pipeline of
  checks, sequence numbers, two fixed windows, a request-id window, a session state
  machine and four exits, writing maps and counters shared with other connections
  and with the scheduler;
- **the scheduler engine** - filter, score, sort, resource limits, sort again,
  deduplicate by (task, trader, epoch), assign with retry, dead-letter queue;
- **session ownership** - conditional updates of the session table, with takeover
  of stale sessions, interleaved between connections.

Objects the program updates in place are classes, its loops are loops, and each
method is proved against a function or states its property outright; the lemmas
about runs are about those functions.

| file | content |
|---|---|
| `Sequences`, `StableSort`, `Text`, `TraderNames` | shared vocabulary, the stable sort, key printing, trader ids |
| `Latency`, `Selection`, `SelectionProperties`, `Scores`, `ResourceRows`, `ResourceLimits` | latency profiles, the selection pipeline, what its order and its scores mean, utilisation of resource rows, selection over those rows |
| `AssignmentDedup`, `Backoff`, `DeadLetters`, `Runtime`, `Engine`, `EngineRuns`, `CycleOutcomes` | the engine: its parts, one cycle, whole runs, and what a cycle reports for what it is given |
| `AssignmentRuns` | cycles taken apart: every Assign call, while the connections go on |
| `FixedWindow`, `RequestDedup`, `ConnectionEntries` | windows, request ids, sequence numbers |
| `ConnectionIndex`, `DispatchRuns` | the two connection maps, and latency-test dispatches, one critical section at a time, interleaved with connections, registrations and removals |
| `Sessions`, `Protocol`, `HandlerLoop`, `ConnectionRuns` | the session machine, one frame, the loop that handles it, one connection's run |
| `FrameEffects`, `GoodPeers` | a frame's effect condition by condition, and the run of a peer that keeps the protocol |
| `System`, `Conservation`, `Provenance` | all connections and the scheduler interleaved, their counters, and the frames a session's contents come from |
| `SessionTable`, `Ownership`, `OwnershipAlone` | the session table; registration, heartbeat and finalisation interleaved statement by statement; and what each comes to undisturbed |
| `Displacement` | ownership, connections and scheduler in one run, joined at registrations and heartbeats |

## What the code does differently from its stated intent

Each of these is a lemma; where a claim fails, the exact condition under which it
holds is proved beside it.

- A displaced session can still mark a heartbeat in memory after its successor's row
  exists (`Ownership.LateMark`). The committed heartbeat always precedes it
  (`Ownership.ExclusiveOwnership`); a late mark happens exactly when the row ended
  between a heartbeat's commit and its mark (`Ownership.LateMarkExactly`), and one is
  still to come exactly when the session is in that phase (`Ownership.LateMarkPending`).
- A session can be displaced although its row is fresh by then
  (`Ownership.FreshRowDisplaced`): what was stale is the row as read earlier
  (`Ownership.DisplacedOnStaleReading`). The row is stale when it is ended exactly when
  no heartbeat statement came between the reading and the end
  (`Ownership.StaleWhenEndedExactly`).
- A connection that is gone leaves its row active, until a newcomer displaces it,
  exactly when it never learned that its insert took effect, or left by an exit that
  does not finalise, or no finalising statement got through
  (`Ownership.LeavesRowActiveExactly`).
- A latency test goes out unnumbered when its session is removed between the
  comparison and the lookup of its connection; `DispatchRuns.DispatchedExactly` is
  the exact condition for any caller. A caller that named a session not yet
  registered could also reach another trader (`DispatchRuns.ComparisonIsNotEnough`);
  the latency sweep, the only caller, never does, because it names published pairs
  (`DispatchRuns.SweptTestsReachTheirTrader`).
- A dedup window of at least the epoch is not enough in general, because the window
  is truncated to seconds while epochs are nanoseconds. The exact condition is
  epoch + 1 s - gcd(epoch, 1 s) <= window in whole seconds
  (`AssignmentDedup.NeverTwiceExactly`); the default of two intervals fails for a
  700 ms interval (`AssignmentDedup.DefaultWindowGap`). For k whole seconds it is
  k seconds (`AssignmentDedup.WholeSecondEpochs`).
- The dedup key is ambiguous when one trader id ends in `|` and another trader id
  (`AssignmentDedup.KeyCollides`), and only then (`AssignmentDedup.KeyInjectiveExactly`).
- Candidates that tie on score, heartbeat and trader id are still separated by their
  score before penalties, left over from the first stable sort; the ranking depends
  on map iteration order exactly when that ties as well
  (`SelectionProperties.OrderIndependentExactly`).
- Raising a trader's trade load index can improve its monitor score, exactly when it
  leaves zero for a value below the general load (`SelectionProperties.TradeLoadImprovesExactly`).
- The handler's latency profile exceeds the scheduler's by one missing-exchange
  penalty for every repeat in the exchange list (`Latency.HandlerProfile`), for
  example when its only exchange is listed twice (`Latency.RepeatCosts`).
- The HSM client's back-off formula meets the common closed form exactly while the
  uncapped delay fits 64 bits (`Backoff.PowerFormulaExactly`), and no longer at the
  64th attempt that starts from one nanosecond and doubles (`Backoff.PowerFormulaFails`).
- The action-flood and sequence-gap exits leave the snapshot in the map for good; it
  is frozen and only ages out of selection (`System.EndedSessionsStayFrozen`,
  `System.EndedSessionsAgeOut`). They never ask to finalise the database row either, and
  a peer that closes with 4009 gets no finalisation because its reason has no
  counterpart in the database (`Conservation.FinalizationAskedExactly`).
- A request id stays taken for a window even if its frame was rejected later in the
  pipeline (`ConnectionRuns.DuplicateRequestExactly`).

## Model

| member | source | states |
|---|---|---|
| Ownership.ExclusiveOwnership | internal/api/rest/ws_persistence.go:183-245 | any interleaving, with faults before or after effect: of two sessions of one trader one row ended before the other was inserted, and every heartbeat the earlier one got accepted was read and committed by then, every one of the later after its own row existed |
| Ownership.OneOwner | migrations/003_single_active_trader_session.sql:50-63 | in every run at most one active row per trader |
| Ownership.DisplacedOnStaleReading | internal/api/rest/ws_persistence.go:215-264 | a session ended by a newcomer had last been heard of, as the newcomer read it, at least staleAfter before the newcomer connected, and the reading came before the end |
| Ownership.DisplacedRowIsTheOneRead | internal/api/rest/ws_persistence.go:220-238 | the row that was ended equals the one read, its end aside, iff no heartbeat statement came in between or the last one wrote the same time |
| Ownership.StaleWhenEndedExactly | internal/api/rest/ws_persistence.go:231-238 | for heartbeat statements that write no time before the newcomer's, the displaced row has been silent for the limit when it is ended iff none came between reading and end |
| Ownership.FreshRowDisplaced | internal/api/rest/ws_persistence.go:231-238 | a run in which the displaced row has not been silent for the limit when it is ended |
| Ownership.LeavesRowActiveExactly | internal/api/ws/handler.go:594-600 | a connection that is gone leaves its row active iff nobody displaced it and its insert's answer was lost, or it left without finalising, or no finalising statement got through |
| Ownership.DisplacedSessionIsFrozen | internal/db/repository/trader_session.go:148-182 | after a row ended its session gets no heartbeat accepted; one more in-memory mark follows iff a committed heartbeat was pending |
| Ownership.LateMarkExactly | internal/api/ws/handler.go:837-847 | the accepted-heartbeat list of a displaced session grows after the row's end iff the row ended between commit and mark and the mark has happened since |
| Ownership.LateMarkPending | internal/api/ws/handler.go:837-847 | some continuation adds a mark for a session whose row has ended iff the session is between commit and mark |
| Ownership.LateMark | internal/api/ws/handler.go:837-847 | a ten-step run in which an in-memory mark follows the birth of the successor's row |
| Ownership.RunInv | internal/api/ws/handler.go:759-778 | the protocol invariant: disjoint lifetimes per trader, every pending or accepted heartbeat committed within its row's life, every takeover based on a stale reading, each connection knowing of its row unless the insert's answer was lost |
| OwnershipAlone.RegistrationAlone | internal/api/rest/ws_persistence.go:183-245 | from any protocol state, a registration whose statements do not fail and are not interleaved owns the trader iff the id is new and every active row of the trader was last heard of at least staleAfter earlier; such a row is ended as timed out and nothing else changes |
| OwnershipAlone.ReadAlone | internal/api/rest/ws_persistence.go:215-232 | from any protocol state, whoever reads the trader's active row goes on to end it iff it has been silent for the limit, and gives up otherwise |
| OwnershipAlone.HeartbeatAlone | internal/db/repository/trader_session.go:148-182 | an undisturbed heartbeat dates the row and is marked in memory iff the row is active, whether or not the database counts a changed row |
| OwnershipAlone.FinalizationAlone | internal/db/repository/trader_session.go:184-219 | an undisturbed finalisation leaves the row ended, and every other row as it was |
| SessionTable.TraderSessionTable.Create | internal/db/repository/trader_session.go:29-62 | inserts exactly when both unique keys allow it, and reports a duplicate otherwise without change |
| SessionTable.TraderSessionTable.GetActiveByTraderId | internal/db/repository/trader_session.go:106-127 | returns an active row of the trader, or none exactly when there is none |
| SessionTable.TraderSessionTable.UpdateHeartbeat | internal/db/repository/trader_session.go:148-182 | accepted iff the row is active, even when the database reports no changed row; otherwise unknown and ended sessions are told apart and nothing changes |
| SessionTable.TraderSessionTable.EndSession | internal/db/repository/trader_session.go:184-219 | ends an active row, leaves an ended one alone and still succeeds, fails iff the session is unknown |
| SessionTable.SessionPersistence.CreateSession | internal/api/rest/ws_persistence.go:183-213 | without interference: created iff the id is new and every active row of the trader has a last heartbeat, or connect time where that is zero, that is not zero and at least a positive staleAfter before the new connect time; such a row is the only one ended, the new row the only one added, every other row is kept, whatever the outcome |
| SessionTable.SessionPersistence.TryRecoverStaleActiveSession | internal/api/rest/ws_persistence.go:215-264 | recovers iff an active session of the trader was last heard of at least staleAfter earlier, which is then ended as timed out; otherwise nothing changes |
| SessionTable.SessionPersistence.FinalizeSession | internal/api/rest/ws_persistence.go:277-300 | succeeds iff the reason is one of the five the database knows and the row exists; an active row is then ended with that reason, and nothing else changes |
| ConnectionEntries.InOrderExactlyOnce | internal/api/ws/handler.go:1310-1344 | any interleaving of frames, acks and sends: accepted numbers are zeros followed by exactly 1..k, k the inbound counter |
| ConnectionEntries.HeardExactly | internal/api/ws/handler.go:1310-1344 | the connection is open iff no number sent so far skipped one or followed the largest 64-bit number; then exactly the leading unnumbered frames and 1..n have been accepted, n the largest number sent, repeats aside |
| ConnectionEntries.PeerAckIsLargest | internal/api/ws/handler.go:1346-1356 | over such a run the ack kept is the largest one seen |
| ConnectionEntries.NoWrapAround | internal/api/ws/handler.go:1332-1343 | at the largest 64-bit number every numbered frame is a gap, every other one invalid, and the counter stays |
| ConnectionEntries.OutboundNumbering | internal/api/ws/handler.go:1358-1369 | numbers handed out are 1, 2, 3, ... modulo 2^64, acks never decrease along them, and an ack of a certifies that frames 1..a were each accepted once by then |
| ConnectionEntries.NoRepeats | internal/api/ws/handler.go:1358-1369 | two numbers handed out fewer than 2^64 sends apart differ |
| ConnectionEntries.ConnectionEntry.ObserveInboundSeq | internal/api/ws/handler.go:1310-1344 | accepted iff the number is the next one, or absent before the first; a gap iff it skips one or follows the largest; the counter moves to an accepted number and only then |
| ConnectionEntries.ConnectionEntry.ObservePeerAck | internal/api/ws/handler.go:1346-1356 | keeps the largest ack seen |
| ConnectionEntries.ConnectionEntry.MarkClosed | internal/api/ws/handler.go:1394-1403 | however often it is called, one close signal |
| ConnectionIndex.Index.AddConnection | internal/api/ws/handler.go:1034-1041 | a fresh entry enters both maps, which keep holding the same unclosed entries; the view changes as Added says |
| ConnectionIndex.Index.BindConnectionTrader | internal/api/ws/handler.go:1043-1052 | binds a non-empty trader to a registered session, as Bound says, and changes nothing else |
| ConnectionIndex.Index.RemoveConnection | internal/api/ws/handler.go:1054-1071 | takes a session out of both maps, as Removed says, and closes its entry with one signal; for an absent session nothing changes |
| ConnectionIndex.Index.RemoveTwice | internal/api/ws/handler.go:606-610 | the exit's explicit and deferred removals together remove once and signal once |
| ConnectionIndex.Index.FindTarget | internal/api/ws/handler.go:1008-1021 | undisturbed between its lock and its comparison: the function Lookup on the maps; DispatchRuns takes the two steps apart |
| ConnectionIndex.Index.SendEnvelope | internal/api/ws/handler.go:945-955 | undisturbed between its two locks: the entry's next number and its ack while the connection is in the map, zeros otherwise, as TakeNumber says; DispatchRuns takes the two steps apart |
| DispatchRuns.IndexesStayInverse | internal/api/ws/handler.go:1034-1071 | in every interleaving of connections, registrations, publications, removals, other frames and the four steps of each dispatch the maps are mutual inverses, no two sessions share a connection, and a session's close signal has fired once if it was removed and never before |
| DispatchRuns.DispatchedExactly | internal/api/ws/handler.go:1013-1031 | for any caller and any events between the four steps: a dispatch that passes the comparison sends a numbered frame iff its session is not removed before its connection is looked up, and then on the entry of that session, whose trader is the one bound at the lookup or else the first to register since |
| DispatchRuns.ConnectIsAdded | internal/api/ws/handler.go:1034-1041 | a connection event changes the maps as the index's Added does |
| DispatchRuns.RegisterIsBound | internal/api/ws/handler.go:1043-1052 | a registration event changes the maps as the index's Bound does |
| DispatchRuns.RemoveIsRemoved | internal/api/ws/handler.go:1054-1071 | a removal event changes the maps as the index's Removed does |
| DispatchRuns.UndisturbedDispatch | internal/api/ws/handler.go:945-955 | with nothing in between, the last two steps of a dispatch are the one step TakeNumber of the index |
| DispatchRuns.ComparisonIsNotEnough | internal/api/ws/handler.go:1013-1031 | two runs that pass the comparison: a test sent without a number after a removal, and, for a caller that names a session not yet registered, one sent to another trader |
| DispatchRuns.SweptTestsReachTheirTrader | internal/scheduler/scheduler.go:733-753 | in every run whose dispatches name published pairs only: a test is refused only for a session no longer connected, and every numbered one goes to the trader it names |
| TraderNames.NeverBlank | internal/api/ws/handler.go:253-266 | the protocol id is empty iff the name is blank, so a registered session never looks unregistered |
| TraderNames.SuffixIsDropped | internal/api/ws/handler.go:259-263 | one client suffix is dropped: names that differ only in it share an id |
| Sessions.SessionRuntime.SetExchangeLatencies | internal/api/ws/session.go:87-100 | keeps exactly the non-negative latencies |
| Sessions.SessionRuntime.MarkTimedOut | internal/api/ws/session.go:123-131 | moves to timed out and stamps it, unless already timed out or disconnected |
| HandlerLoop.ConnectionLoop.Serve | internal/api/ws/handler.go:511-943 | a whole undisturbed connection: session, loop variables and exit are those of the run of its frames, snapshots and counters those of AfterServe, and finalisation is asked for iff the last read failed with persistence and the persistedSession flag set |
| HandlerLoop.ServeBalances | internal/api/ws/handler.go:511-518 | whatever frames arrive and however the connection ends, the active count comes back and the total has grown by one |
| HandlerLoop.ConnectionLoop.HandleFrame | internal/api/ws/handler.go:627-942 | one loop iteration: new loop variables, shared maps and counters, replies and exit are those of OnFrame |
| HandlerLoop.ConnectionLoop.CheckFrame | internal/api/ws/handler.go:627-699 | the checks in order, each leaving exactly the state the function Screen says |
| HandlerLoop.ConnectionLoop.CheckMessage | internal/api/ws/handler.go:657-699 | version, request id, kind and sequence checks of a decoded message |
| HandlerLoop.ConnectionLoop.HandleRegister | internal/api/ws/handler.go:702-815 | registration: every refusal in its order, the duplicate-session exit, and on success session, row flag, snapshot and replies |
| HandlerLoop.ConnectionLoop.HandleHeartbeat | internal/api/ws/handler.go:816-883 | a heartbeat marks the session only if it is registered, names no other session and persistence accepted it; then telemetry, profile, snapshot and ack follow |
| HandlerLoop.ConnectionLoop.HandleLatencyResult | internal/api/ws/handler.go:884-929 | a latency report replaces latencies and profile and republishes the snapshot |
| HandlerLoop.ConnectionLoop.HandleUnknown | internal/api/ws/handler.go:930-941 | an unknown action is counted in its window and ends the connection at the maximum |
| HandlerLoop.ConnectionLoop.LeaveOnReadError | internal/api/ws/handler.go:584-611 | counts the classified reason, marks time-outs, asks for finalisation iff persistence is on and the persistedSession flag is set, removes the snapshot |
| FrameEffects.WellFormedExactly | internal/api/ws/handler.go:627-683 | a frame gets to the sequence check iff its size, the count in the present second, its type, JSON, version, request id and kind are in order |
| FrameEffects.RefusalsInOrder | internal/api/ws/handler.go:627-683 | the refusal is that of the first check that fails, each stated in its own arithmetic |
| FrameEffects.RegistersExactly | internal/api/ws/handler.go:702-815 | a frame at the switch registers the connection iff it is a register request on an unregistered connection with a certificate name and, with persistence, an identity and a created row; status, database id, protocol id, role, capabilities, exchanges and loads are then those of identity record, certificate and request |
| FrameEffects.BeatsExactly | internal/api/ws/handler.go:816-883 | a heartbeat at the switch is taken iff the connection is registered, no other session is named and the database, with persistence, has taken it; it then sets state, time, latencies, profile and loads as reported and publishes them, and otherwise changes nothing |
| FrameEffects.MeasuresExactly | internal/api/ws/handler.go:884-929 | a latency report replaces latencies and profile of the registered session it names, and changes nothing else |
| FrameEffects.FloodsExactly | internal/api/ws/handler.go:930-941 | an unknown action ends the connection iff it is at least the maximum-th in its window |
| FrameEffects.AnswersExactly | internal/api/ws/handler.go:702-929 | what is taken is acknowledged, a registration with the time-out in seconds rounded up; what is not gets exactly one error and publishes nothing |
| GoodPeers.GoodPeerIsHeard | internal/api/ws/handler.go:627-942 | a peer whose frames are in form, number from 1 without a gap, reuse no request id within a window and never exceed the rate in one second is heard in full: every frame reaches the switch and the connection stays open |
| HandlerLoop.Handler.RecordDisconnect | internal/api/ws/handler.go:1468-1488 | adds one to the total, to the reason, and to the 4009 counter if flagged |
| HandlerLoop.Handler.UpsertSessionSnapshot | internal/api/ws/handler.go:1515-1539 | publishes the projection of a registered session and nothing for an unregistered one |
| HandlerLoop.Handler.GetTraderSnapshots | internal/api/ws/handler.go:1504-1513 | every published snapshot exactly once, in an unspecified order |
| ConnectionRuns.SwitchSeesInOrder | internal/api/ws/handler.go:627-699 | whatever the peer sends and the checks drop, the frames reaching the action switch are unnumbered ones followed by exactly 1..k, k the inbound counter |
| ConnectionRuns.NextNumberIsHeard | internal/api/ws/handler.go:684-695 | from every reachable open state with counter k: a frame that passes the earlier checks reaches the switch iff it carries k + 1, or no number while k is 0; it ends the connection with the gap exit iff its number is above k + 1 or follows the largest one; the counter becomes k + 1 in the first case and stays otherwise |
| ConnectionRuns.LostNumberEndsTheConnection | internal/api/ws/handler.go:684-695 | from any reachable open state with counter k, zero included: while number k+1 has not passed the earlier checks the counter stays k, lower numbers are ignored, unnumbered frames pass only before the first numbered one, and the first higher number ends the connection with 4009 |
| ConnectionRuns.FrameNumbers | internal/api/ws/handler.go:627-699 | a frame stopped before the sequence check moves no counter; any other moves it as Observe says, and only a gap exits there |
| ConnectionRuns.FramesPassedBound | internal/api/ws/handler.go:633-643 | in any interval of length d at most limit * (ceil(d / 1 s) + 1) frames of one connection pass the rate window |
| ConnectionRuns.SurvivorsSendFewUnknown | internal/api/ws/handler.go:930-941 | a connection not ended by the guard has at most 2 * (max - 1) unknown actions in any window length |
| ConnectionRuns.DuplicateRequestExactly | internal/api/ws/handler.go:665-677 | over a whole run a frame is refused as duplicate iff an earlier frame with its request id passed this check at most one window ago |
| ConnectionRuns.RequestsPassApart | internal/api/ws/handler.go:665-677 | two frames with one request id that pass are more than a window apart |
| FixedWindow.BoundAnywhere | internal/api/ws/handler.go:633-643 | any half-open interval of length d holds at most limit * (ceil(d / window) + 1) admitted events |
| FixedWindow.WindowsIsCeiling | internal/api/ws/handler.go:633-643 | the window count used in the bounds is the rounded-up quotient |
| FixedWindow.TwiceTheLimit | internal/api/ws/handler.go:930-941 | at most twice the limit in one window length |
| FixedWindow.IpRateLimiter.Handle | internal/api/middleware/rate_limit.go:30-64 | renews or counts the client's window; passes iff the count is within the allowance, and reports what remains |
| FixedWindow.AddressesIndependent | internal/api/middleware/rate_limit.go:34-43 | what one address gets admitted depends on its own requests only |
| FixedWindow.PerAddressBound | internal/api/middleware/rate_limit.go:18-65 | per address at most allowed * (ceil(d / 1 s) + 1) requests in any interval of length d |
| FixedWindow.RefusedAfterLimit | internal/api/ws/handler.go:633-643 | a refusal has a cause: as many earlier events as the limit, all within one window length |
| FixedWindow.SparseClientPasses | internal/api/middleware/rate_limit.go:30-64 | a client that never sends more than the allowance within one second has every request admitted, whatever others send |
| RequestDedup.CheckRequest | internal/api/ws/handler.go:665-677 | the sweep over the map, the lookup and the insertion have the effect of Check |
| RequestDedup.RejectedExactly | internal/api/ws/handler.go:665-677 | the swept map answers like the full history: rejected iff the id was accepted at most one window ago |
| RequestDedup.AcceptancesApart | internal/api/ws/handler.go:665-677 | two acceptances of one id are more than one window apart |
| System.SnapshotsAgree | internal/api/ws/handler.go:1515-1560 | any interleaving of connections and cycles: a snapshot exists iff its session is registered and was not left by the read-error exit, and equals the session's projection; identity set iff past the first state, and with persistence iff the persistedSession flag is set |
| System.FrameKeeps | internal/api/ws/handler.go:702-942 | a frame changes the session only by publishing its new projection, never changes a set identity, counts a disconnect iff it is a gap, and publishes nothing when it exits |
| System.OnlyFitSessionsAreChosen | internal/scheduler/scheduler.go:801-831 | every session selected in any run is, as of the snapshots the cycle reads, registered under the selected trader id, with status active or empty, an allowed role, an active state and a heartbeat within the healthy window, in whole seconds |
| System.EligibleExactly | internal/scheduler/scheduler.go:801-831 | a published session passes the scheduler's filter iff its connection is fit |
| System.EndedSessionsStayFrozen | internal/api/ws/handler.go:684-688 | once a connection has ended by any exit its snapshot never changes; only the read-error exit removes it |
| System.EndedSessionsAgeOut | internal/api/ws/handler.go:930-941 | an ended connection is not chosen later than its last heartbeat plus the healthy window, in the scheduler's whole seconds |
| Provenance.RegisteredByOneFrame | internal/api/ws/handler.go:736-799 | in every run a connection is registered iff one of its frames registered it; no two did; and its session carries that frame's role and exchanges, its identity record's status, database id and name or else the certificate's name, for good |
| Provenance.DatedByLatestBeat | internal/api/ws/handler.go:837-850 | in every run a session's last heartbeat is the time stamp of the latest heartbeat frame accepted from it, and zero without one |
| Provenance.SnapshotsShow | internal/api/ws/handler.go:1515-1539 | in every run a published snapshot shows every field of its session, times in whole seconds |
| Provenance.ChosenByItsFrames | internal/scheduler/scheduler.go:801-831 | in every run, for whoever a cycle selects there is exactly one register frame, which names the selected trader, whose identity answer was active or without status and whose role fits the task; and its latest accepted heartbeat, taken by the database, is within the healthy window |
| Displacement.DisplacedSessionsAgeOut | internal/api/ws/handler.go:837-847 | ownership, loops and scheduler in one run: once a session's row has ended, the session is not chosen later than its last database-accepted heartbeat plus the healthy window |
| Displacement.RegisteredOwnsRowExactly | internal/api/ws/handler.go:759-791 | with persistence, in every run: a connection is registered iff its persistedSession flag is set iff its row was inserted and the insert's answer reached it |
| Displacement.FrameBeat | internal/api/ws/handler.go:816-847 | a frame dates its session only as an accepted heartbeat, with its own time stamp |
| Conservation.ConnectionsConserved | internal/api/ws/handler.go:511-518 | at every moment total minus active counts the ended connections, split over four exits; the disconnect total is the sum over reasons and counts read-error and gap exits; each reason counts its connections |
| Conservation.CountersFollow | internal/api/ws/handler.go:1468-1488 | the counter invariant holds in every reachable state |
| Conservation.FinalizationAskedExactly | internal/api/ws/handler.go:594-600 | a connection asks for finalisation with a reason the database knows iff it was registered with persistence and left by a read error other than the peer's own 4009 |
| Conservation.StoredReasonExactly | internal/api/ws/session.go:137-160 | the reason stored for each read failure: graceful for the four known close codes, timed out, graceful for an end of input, failed otherwise; none for the peer's 4009 |
| Latency.HandlerProfile | internal/api/ws/handler.go:367-413 | for every iteration order of the map: the scheduler's estimate for the same list plus 300 per repeat or blank, equal iff there is none; a result iff some listed exchange was measured |
| Latency.ComputeProfile | internal/api/ws/handler.go:367-413 | v + (max - min) / 10 + 300 for each place of the list without a measured exchange, v the 95th percentile as a property of the measured values; all exchanges of the map count when the list is empty |
| Latency.HandlerMeans | internal/api/ws/handler.go:367-413 | there is a profile iff some listed exchange was measured, and it is that number |
| Latency.RepeatCosts | internal/api/ws/handler.go:367-413 | one measured exchange listed twice: the handler's profile is 300 above the scheduler's |
| Latency.EstimateForTask | internal/scheduler/scheduler.go:1013-1056 | the loop over required exchanges: v + (max - min) / 10 + 300 for each exchange not measured, where v is a measured latency that at least 95 of 100 do not exceed and fewer than 95 of 100 stay below; the published profile, or 5000, without requirements |
| Latency.EstimateMeans | internal/scheduler/scheduler.go:1013-1056 | the same of the function TaskEstimate, with 5000 and 300 for each exchange when none was measured |
| Latency.SamplesOrderIrrelevant | internal/api/ws/handler.go:380-388 | two lists naming the same measured exchanges yield the same values as a multiset |
| Latency.Distinct | internal/scheduler/scheduler.go:953-971 | drops blanks and repeats, nothing else; the identity iff there are none |
| Selection.SelectCandidates | internal/scheduler/scheduler.go:787-874 | the filtering and scoring loop with its early continues, then the stable sort |
| Selection.ApplyResourceConstraints | internal/scheduler/scheduler.go:644-721 | survivors with their penalties, re-sorted, and the rejection reasons in order |
| Selection.AssessRequired | internal/scheduler/scheduler.go:666-699 | the first lookup error, missing row or hard limit rejects; otherwise the soft penalties add up |
| Selection.NormalizeLimits | internal/scheduler/scheduler.go:215-219 | any configuration becomes 0 < soft < hard < 1 with a positive weight; a valid one is kept |
| StableSort.SortInPlace | internal/scheduler/scheduler.go:711-719 | the in-place sort equals the specification Sort |
| StableSort.SortOrder | internal/scheduler/scheduler.go:711-719 | x comes before y in the result iff it ranks before y, or neither ranks first and it came before |
| SelectionProperties.PipelineMembers | internal/scheduler/scheduler.go:654-711 | the final list holds exactly the sessions that pass filter and limits, each once |
| SelectionProperties.PipelineOrder | internal/scheduler/scheduler.go:644-721 | its order in one rule: final rank, then rank before penalties, then input order |
| SelectionProperties.HeadIsLeast | internal/scheduler/scheduler.go:366-372 | the chosen candidate survives and no survivor ranks before it under (score, newest heartbeat, trader id) |
| SelectionProperties.RankedByFields | internal/scheduler/scheduler.go:711-719 | whoever comes earlier in the final list, the head in particular, has the smaller score; on equal scores the newer heartbeat; on those as well the smaller or same trader id, by first differing byte |
| SelectionProperties.OrderIndependentExactly | internal/api/ws/handler.go:1504-1513 | the list is the same for every permutation of the snapshots iff no two ranked sessions tie on all of final score, heartbeat, trader id and pre-penalty score |
| SelectionProperties.LoadNeverImprovesRank | internal/scheduler/scheduler.go:994-1001 | raising one load index removes the session or keeps everyone ahead of it ahead, for both task types |
| SelectionProperties.UtilizationNeverImprovesRank | internal/scheduler/scheduler.go:666-699 | the same for raising any of one trader's utilisations, sessions of the same trader included; other traders are unaffected |
| SelectionProperties.TradeLoadImprovesExactly | internal/scheduler/scheduler.go:827-849 | the exact case in which a higher trade load lowers the monitor score |
| SelectionProperties.SurvivorsWithinLimits | internal/scheduler/scheduler.go:666-709 | every ranked session has every required utilisation known and below the hard limit; its score grew by at most the number of required exchanges times weight * ((hard - soft) / (1 - soft))^2 |
| Scores.TradeScore | internal/scheduler/scheduler.go:994-1001 | a trade score is the latency estimate over the distinct required names and 1000 times the square of the load brought into the unit interval |
| Scores.MonitorScore | internal/scheduler/scheduler.go:832-849 | a monitor score is 1000 times the squared trade load, or load where that is missing, 200 times the squared load, and 0, 100 or 300 by role |
| Scores.FinalIsBasePlusCosts | internal/scheduler/scheduler.go:666-709 | the final score is the score before penalties and, for every required exchange, weight * x^2 where its use is x of the way from the soft limit to full, nothing up to the soft limit |
| Scores.FirstFailureIsReported | internal/scheduler/scheduler.go:666-699 | a session is rejected for its first required exchange that fails: by a lookup error, a missing row or the hard limit |
| Text.StringLessExactly | internal/scheduler/scheduler.go:711-719 | the order of trader ids: the first differing byte decides, and a proper prefix comes first |
| ResourceRows.TraderExchangeUtilization | cmd/cts-core/main.go:70-116 | the loop with its early continues computes UtilizationOf: an error for a failed query, nothing found without a live or expired row |
| ResourceRows.WorstIsLargest | cmd/cts-core/main.go:79-111 | the value found is the largest live ratio; it is below a limit of at most one iff every row inside its window with both numbers has used less than that part of its maximum |
| ResourceLimits.SurvivorsExactly | internal/scheduler/scheduler.go:654-709 | over a table of resource rows a session is ranked iff it is eligible, has a database id, and for every required exchange the query succeeds, some row is live or expired and every live row is below the hard limit |
| AssignmentDedup.KeyInjectiveExactly | internal/scheduler/scheduler.go:413-415 | over all tasks and epochs the printed key tells the trader ids of a set apart iff no id of the set ends in a bar followed by another |
| AssignmentDedup.KeyInjective | internal/scheduler/scheduler.go:413-415 | two particular trader ids, neither ending in a bar and the other: equal keys come from equal triples |
| AssignmentDedup.KeyCollides | internal/scheduler/scheduler.go:413-415 | a trader id that ends in a bar and another prints like that other one under a longer task |
| AssignmentDedup.EvictOldAssignments | internal/scheduler/scheduler.go:434-444 | drops exactly the entries at or before the cutoff |
| AssignmentDedup.DuplicateExactly | internal/scheduler/scheduler.go:417-432 | with a covering window an attempt is a duplicate iff its triple was already assigned, in any ordered run |
| AssignmentDedup.NeverTwiceExactly | internal/scheduler/scheduler.go:405-444 | with unambiguous trader ids no run assigns a triple twice iff epoch + 1 s - gcd(epoch, 1 s) fits the window's whole seconds |
| AssignmentDedup.WindowFitsExactly | internal/scheduler/scheduler.go:434-444 | that inequality holds iff two moments of one epoch are always less than the window apart in whole seconds |
| AssignmentDedup.WholeSecondEpochs | internal/scheduler/scheduler.go:405-411 | for an epoch of k seconds the window covers it iff it has k seconds |
| AssignmentDedup.DefaultWindowGap | internal/scheduler/scheduler.go:221-228 | the default window does not cover a 700 ms epoch |
| Backoff.RetryBackoff | internal/scheduler/scheduler.go:497-516 | the early-exit loop returns min(initial * m^(n-1), max) in whole nanoseconds |
| Backoff.DelaysMultiply | internal/scheduler/scheduler.go:497-516 | the first delay is the initial one; each later one is the multiple of the one before, up to rounding to whole nanoseconds, or the cap |
| Backoff.WithDbWriteRetry | internal/api/ws/handler.go:1602-1635 | stops at the first success or conflict, else after the last attempt; every earlier call failed; the sleeps are the closed form with factor two |
| Backoff.NormalizeDbRetry | internal/api/ws/handler.go:1684-1698 | any configuration becomes usable; a usable one is kept |
| Backoff.DoublingStep | internal/api/ws/handler.go:1627-1632 | doubling the capped delay and capping again is the next term of the closed form |
| Backoff.PowerFormulaExactly | internal/hsm/client.go:308-314 | the power formula meets the closed form for every out-of-range conversion iff the uncapped delay fits 64 bits |
| Backoff.PowerFormulaFails | internal/hsm/client.go:308-314 | the 64th attempt from one nanosecond with factor two: the power formula yields whatever the conversion gives, here the least integer, and the closed form the cap |
| Backoff.NonDecreasing | internal/scheduler/scheduler.go:497-516 | delays never shrink and stay between the initial delay and the cap |
| DeadLetters.DeadLetterQueue.PushDeadLetter | internal/scheduler/scheduler.go:538-550 | the slice, shifted in place when full, is the last entries of what it held plus the new one |
| DeadLetters.LastOfAppend | internal/scheduler/scheduler.go:538-550 | keeping the tail of a tail keeps the tail of the whole log |
| Engine.SchedulerEngine.AssignWithRetry | internal/scheduler/scheduler.go:455-495 | no error iff some call succeeded, so the trailing return is never reached; at most retryMax + 1 calls, all before the last failed retryably, calls - 1 sleeps of at most retryMax * retryMaxDelay in all, one dead letter iff it failed |
| AssignmentRuns.EveryCallWasFit | internal/scheduler/scheduler.go:455-495 | every Assign call of every run, retries included: its session was fit when the cycle read the snapshots, at most retryMax * retryMaxDelay of sleeping earlier, however the connections went on |
| AssignmentRuns.LandsAsOneCycle | internal/scheduler/scheduler.go:350-391 | a cycle whose calls were answered one by one ends in the state and with the report of one undivided cycle given the same replies |
| Engine.SchedulerEngine.RunCycle | internal/scheduler/scheduler.go:350-391 | one cycle's new dedup map, dead letters, counters and report are those of Cycle |
| Engine.NormalizeIsValid | internal/scheduler/scheduler.go:197-289 | every configuration becomes valid; a valid one is kept |
| CycleOutcomes.OutcomeExactly | internal/scheduler/scheduler.go:350-391 | a cycle reports no candidates iff nobody is ranked; dedup iff the printed key task, trader, epoch is remembered with a second inside the window; else success, non-retryable or exhausted exactly as the first call that is not a retryable failure goes, if there is one within retryMax + 1 |
| CycleOutcomes.RankedByConfig | internal/scheduler/scheduler.go:350-391 | a configured cycle ranks exactly the sessions that pass the filter of its task and window and, with a resource table and required exchanges, the configured hard limit |
| CycleOutcomes.CountersByName | internal/scheduler/scheduler.go:559-574 | over any run each published counter, by its name, is the number of cycles with that outcome |
| CycleOutcomes.LettersTell | internal/scheduler/scheduler.go:455-495 | over any run a dead letter tells the task, trader, session, epoch, number of calls and last error of its cycle, and is retryable only if all calls were used |
| EngineRuns.AssignedAtMostOnce | internal/scheduler/scheduler.go:372-387 | over any run of cycles with unambiguous trader ids and a window that satisfies the inequality, a cycle reports dedup iff its (task, trader, epoch) already succeeded, and no triple is assigned twice |
| EngineRuns.QueueIsTailOfLog | internal/scheduler/scheduler.go:455-495 | the queue is the last min(n, max) entries of the failure log, which has one entry per failed cycle and no other |
| EngineRuns.OutcomesConserved | internal/state/manager.go:236-247 | every outcome counter is its tally, and the five counters sum to the cycles |
| Runtime.StateManager.SetRuntimeWSDisconnect | internal/state/manager.go:212-225 | publishes total, 4009 count and every reason, clamped to 64-bit signed |

## Left out

- Floating point: loads, latencies and scores are reals; rounding and NaN are not modelled.
- Integer width: counters and times are unbounded except the sequence numbers and the clamped disconnect counters; nanosecond times do not overflow.
- Unicode: trimming and lower-casing in `TraderNames` are ASCII; exchange names, capabilities, roles and statuses arrive normalised, so two spellings of one exchange in one payload are not modelled.
- JSON: a message or payload parses or not; field validation inside it is not modelled.
- TLS, client certificates, sockets, deadlines, ping and pong: only the certificate name, the frames and the classified read error they deliver. Server shutdown by CloseAll reaches a loop as a read error.
- Outbound frames: their content is the `Reply` list of a frame; numbering is in `ConnectionEntries` and `ConnectionIndex`. A dispatch's failed write is not modelled. The number is taken before the write lock, so order on the wire is not claimed. Request ids generated for replies are not modelled.
- Session ids: freshly generated and not empty; the empty id after a failed random read is not modelled.
- Scheduler cycles: one step of `System` and `Displacement`; `AssignmentRuns` takes them apart. There the time a call itself takes is not counted, and a session chosen may have ended before a later call.
- Clocks: `now` of a connection's frames does not decrease where a window or request-id bound needs it. In `rate_limit.go` reading the clock and the locked section are one step. A scheduler cycle's time is the one its ticker hands it.
- System.Step: one frame is one step, because it enters a critical section on the shared maps or counters at most once; the read-error exit takes three steps. Database answers are inputs there; `Ownership` interleaves the statements themselves.
- Ownership.LateMark: time stamps in the table are exact; the one-second granularity of the TIMESTAMP columns is not modelled. A connection abandons the protocol at any time but finalises only after a read error.
- SessionTable: CleanupOldSessions is never called on active rows and is not modelled; `CreateSession` of the class runs without interference and without faults, which `Ownership` adds.
- HandlerLoop.ConnectionLoop.HandleRegister: updating the trader's release in the database only logs its failure and is not modelled; a failed catalog query arrives as an empty catalog.
- Selection.AssessRequired: within one cycle a utilisation lookup for one trader and exchange always gives the same answer; `ResourceLimits` reads all rows at one moment.
- Engine: publishing the score distribution, assignment latency and resource rejections as metrics; Start and Stop. Which published pairs the latency sweep picks, and when, is open in `DispatchRuns`. `isRetryable` and the task identity provider are inputs.
- Backoff.RetryBackoff: the two range checks on the converted delay cannot fire for a normalised configuration and have no counterpart.
- Latency.HandlerProfile: the clamps of the percentile index never apply and have no counterpart.
- Score monotonicity in a single exchange latency: not claimed; raising the minimum shrinks the spread term.
- State manager: publication of handler counters happens outside the handler's lock, so the published copy may lag; only the counters themselves are conserved.
- Other repositories, re-encryption, arbitrage orders, audit log, configuration validation, state files: data records and single-branch checks.
