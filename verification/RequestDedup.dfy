/**
 The request-id window of one connection (internal/api/ws/handler.go): a map
 swept at every use answers like the full history of accepted ids.
 */
module RequestDedup {
  datatype Request = Request(id: string, now: int)

  /** Drops ids last accepted before now - window. */
  function Sweep(ids: map<string, int>, now: int, window: int): map<string, int> {
    map id | id in ids && ids[id] >= now - window :: ids[id]
  }

  /** The map after the check, and whether the id was accepted. */
  function Check(ids: map<string, int>, r: Request, window: int): (map<string, int>, bool) {
    var kept := Sweep(ids, r.now, window);
    if r.id in kept then (kept, false) else (kept[r.id := r.now], true)
  }

  method CheckRequest(ids: map<string, int>, r: Request, window: int) returns (after: map<string, int>, accepted: bool)
    ensures (after, accepted) == Check(ids, r, window)
  {
    var cutoff := r.now - window;
    after := ids;
    var pending := ids.Keys;
    while pending != {}
      invariant pending <= ids.Keys
      invariant after == map id | id in ids && (id in pending || ids[id] >= cutoff) :: ids[id]
      decreases pending
    {
      var id :| id in pending;
      pending := pending - {id};
      if ids[id] < cutoff {
        after := after - {id};
      }
    }
    assert after == Sweep(ids, r.now, window);
    if r.id in after {
      return after, false;
    }
    after := after[r.id := r.now];
    accepted := true;
  }

  function Run(requests: seq<Request>, window: int): (r: (map<string, int>, seq<bool>))
    ensures |r.1| == |requests|
  {
    if requests == [] then (map[], [])
    else
      var n := |requests| - 1;
      var before := Run(requests[..n], window);
      var after := Check(before.0, requests[n], window);
      (after.0, before.1 + [after.1])
  }

  function Accepted(requests: seq<Request>, window: int): (v: seq<bool>)
    ensures |v| == |requests|
  {
    Run(requests, window).1
  }

  ghost predicate Ordered(requests: seq<Request>) {
    forall i, j :: 0 <= i < j < |requests| ==> requests[i].now <= requests[j].now
  }

  lemma {:induction false} AcceptedPrefix(requests: seq<Request>, window: int, n: nat)
    requires n <= |requests|
    ensures Accepted(requests[..n], window) == Accepted(requests, window)[..n]
  {
    if n == |requests| {
      assert requests[..n] == requests;
    } else {
      var m := |requests| - 1;
      assert requests[..m][..n] == requests[..n];
      AcceptedPrefix(requests[..m], window, n);
    }
  }

  /** Full history: the pairs (id, time) of all acceptances. */
  function History(requests: seq<Request>, window: int): set<(string, int)> {
    if requests == [] then {}
    else
      var n := |requests| - 1;
      History(requests[..n], window) + if Accepted(requests, window)[n] then {(requests[n].id, requests[n].now)} else {}
  }

  ghost predicate Agrees(ids: map<string, int>, history: set<(string, int)>, last: int, window: int) {
    && (forall id :: id in ids ==> (id, ids[id]) in history)
    && (forall h :: h in history ==> h.1 <= last)
    && (forall h :: h in history && h.1 >= last - window ==> h.0 in ids && ids[h.0] >= h.1)
  }

  lemma CheckAgrees(ids: map<string, int>, history: set<(string, int)>, last: int, r: Request, window: int)
    requires window >= 0 && last <= r.now && Agrees(ids, history, last, window)
    ensures var (after, accepted) := Check(ids, r, window);
            && Agrees(after, history + if accepted then {(r.id, r.now)} else {}, r.now, window)
            && (!accepted <==> exists t :: (r.id, t) in history && r.now - t <= window)
  {
    var kept := Sweep(ids, r.now, window);
    if r.id in kept {
      assert (r.id, ids[r.id]) in history && r.now - ids[r.id] <= window;
    }
  }

  lemma {:induction false} RunAgrees(requests: seq<Request>, window: int, first: int)
    requires window >= 0 && Ordered(requests)
    requires requests != [] ==> first <= requests[0].now
    ensures Agrees(Run(requests, window).0, History(requests, window),
                   if requests == [] then first else requests[|requests| - 1].now, window)
  {
    if requests != [] {
      var n := |requests| - 1;
      RunAgrees(requests[..n], window, first);
      var last := if n == 0 then first else requests[n - 1].now;
      CheckAgrees(Run(requests[..n], window).0, History(requests[..n], window), last, requests[n], window);
    }
  }

  lemma {:induction false} HistoryIs(requests: seq<Request>, window: int, id: string, t: int)
    ensures (id, t) in History(requests, window) <==>
            exists j :: 0 <= j < |requests| && Accepted(requests, window)[j] && requests[j].id == id
              && requests[j].now == t
  {
    if requests != [] {
      var n := |requests| - 1;
      HistoryIs(requests[..n], window, id, t);
      AcceptedPrefix(requests, window, n);
      forall j | 0 <= j < n
        ensures requests[..n][j] == requests[j] && Accepted(requests[..n], window)[j] == Accepted(requests, window)[j]
      {
      }
    }
  }

  /** Rejected exactly when the same id was accepted no longer than one window ago. */
  lemma RejectedExactly(requests: seq<Request>, window: int, i: nat)
    requires window >= 0 && Ordered(requests) && i < |requests|
    ensures !Accepted(requests, window)[i] <==>
            exists j :: 0 <= j < i && Accepted(requests, window)[j] && requests[j].id == requests[i].id
                        && requests[i].now - requests[j].now <= window
  {
    var before, r := requests[..i], requests[i];
    var v := Accepted(requests, window);
    AcceptedPrefix(requests, window, i);
    AcceptedPrefix(requests, window, i + 1);
    assert requests[..i + 1][..i] == before;
    assert v[i] == Accepted(requests[..i + 1], window)[i] == Check(Run(before, window).0, r, window).1;
    var first := if i == 0 then r.now else requests[0].now;
    RunAgrees(before, window, first);
    CheckAgrees(Run(before, window).0, History(before, window),
                if i == 0 then first else requests[i - 1].now, r, window);
    if !v[i] {
      var t :| (r.id, t) in History(before, window) && r.now - t <= window;
      HistoryIs(before, window, r.id, t);
      var j :| 0 <= j < |before| && Accepted(before, window)[j] && before[j].id == r.id && before[j].now == t;
      assert v[j] && requests[j] == before[j];
    }
    if j :| 0 <= j < i && v[j] && requests[j].id == r.id && r.now - requests[j].now <= window {
      assert Accepted(before, window)[j] && before[j] == requests[j];
      HistoryIs(before, window, r.id, before[j].now);
    }
  }

  /** So two acceptances of one id are always more than a window apart. */
  lemma AcceptancesApart(requests: seq<Request>, window: int, i: nat, j: nat)
    requires window >= 0 && Ordered(requests) && i < j < |requests|
    requires requests[i].id == requests[j].id && Accepted(requests, window)[i] && Accepted(requests, window)[j]
    ensures requests[j].now - requests[i].now > window
  {
    RejectedExactly(requests, window, j);
  }
}
