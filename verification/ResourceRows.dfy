/** GetTraderExchangeUtilization (cmd/cts-core/main.go): the worst live resource row. */
module ResourceRows {
  import opened Sequences
  import opened Selection

  /** Numbers that fail to parse are None; resetAt None is the zero time. */
  datatype ResourceRow = ResourceRow(used: Option<real>, max: Option<real>, resetAt: Option<int>)

  predicate Expired(row: ResourceRow, now: int) {
    row.resetAt.Some? && now > row.resetAt.value
  }

  /** A row that is inside its window and carries two usable numbers. */
  predicate Live(row: Option<ResourceRow>, now: int) {
    row.Some? && !Expired(row.value, now) && row.value.used.Some? && row.value.max.Some? && row.value.max.value > 0.0
  }

  function Ratio(row: ResourceRow): real
    requires row.used.Some? && row.max.Some? && row.max.value > 0.0
  {
    ClampUnit(row.used.value / row.max.value)
  }

  predicate Counts(row: Option<ResourceRow>, now: int) {
    Live(row, now) || (row.Some? && Expired(row.value, now))
  }

  /** Every row still inside its window, with both numbers, has used less than this part of its maximum. */
  ghost predicate AllBelow(rows: seq<Option<ResourceRow>>, now: int, limit: real) {
    forall row :: row in rows && row.Some? && (row.value.resetAt.Some? ==> now <= row.value.resetAt.value)
                  && row.value.used.Some? && row.value.max.Some? && row.value.max.value > 0.0 ==>
      row.value.used.value < limit * row.value.max.value
  }

  lemma RatioBelow(row: ResourceRow, limit: real)
    requires row.used.Some? && row.max.Some? && row.max.value > 0.0 && 0.0 < limit <= 1.0
    ensures Ratio(row) < limit <==> row.used.value < limit * row.max.value
  {
    QuotientBelow(row.used.value, row.max.value, limit);
  }

  lemma QuotientBelow(used: real, max: real, limit: real)
    requires max > 0.0
    ensures used / max < limit <==> used < limit * max
  {
    var q := used / max;
    assert q * max == used;
    assert (limit - q) * max == limit * max - used;
    assert q < limit ==> (limit - q) * max > 0.0;
    assert q >= limit ==> (limit - q) * max <= 0.0;
  }

  /** Below a limit that is at most one, live ratios are counted row by row. */
  lemma AllRatiosBelow(rows: seq<Option<ResourceRow>>, now: int, limit: real)
    requires 0.0 < limit <= 1.0
    ensures AllBelow(rows, now, limit) <==> forall row :: row in rows && Live(row, now) ==> Ratio(row.value) < limit
  {
    forall row | row in rows && Live(row, now)
      ensures Ratio(row.value) < limit <==> row.value.used.value < limit * row.value.max.value
    {
      RatioBelow(row.value, limit);
    }
  }

  lemma CountsAppend(rows: seq<Option<ResourceRow>>, item: Option<ResourceRow>, now: int)
    ensures (exists row :: row in rows + [item] && Counts(row, now)) <==>
            (exists row :: row in rows && Counts(row, now)) || Counts(item, now)
  {
    assert item in rows + [item];
    assert forall row :: row in rows ==> row in rows + [item];
  }

  /** The repository's answer: an error, or the rows of one trader and exchange. */
  datatype Query = QueryFailed | Rows(rows: seq<Option<ResourceRow>>)

  function Worst(rows: seq<Option<ResourceRow>>, now: int): (m: real)
    ensures 0.0 <= m <= 1.0
  {
    if rows == [] then 0.0
    else
      var before, last := Worst(rows[..|rows| - 1], now), rows[|rows| - 1];
      if Live(last, now) && Ratio(last.value) > before then Ratio(last.value) else before
  }

  function UtilizationOf(q: Query, now: int): Lookup {
    match q
    case QueryFailed => LookupError
    case Rows(rows) =>
      if exists row :: row in rows && Counts(row, now) then Utilization(Worst(rows, now)) else LookupMissing
  }

  /** The largest live ratio, zero without one; so it is below a limit exactly when every live row is. */
  lemma {:induction false} WorstIsLargest(rows: seq<Option<ResourceRow>>, now: int)
    ensures forall row :: row in rows && Live(row, now) ==> Ratio(row.value) <= Worst(rows, now)
    ensures Worst(rows, now) == 0.0
            || exists row :: row in rows && Live(row, now) && Ratio(row.value) == Worst(rows, now)
    ensures forall limit :: 0.0 < limit <= 1.0 ==> (Worst(rows, now) < limit <==> AllBelow(rows, now, limit))
  {
    if rows != [] {
      var before, last := rows[..|rows| - 1], rows[|rows| - 1];
      assert rows == before + [last];
      WorstIsLargest(before, now);
    }
    forall limit | 0.0 < limit <= 1.0 ensures Worst(rows, now) < limit <==> AllBelow(rows, now, limit) {
      AllRatiosBelow(rows, now, limit);
    }
  }

  method TraderExchangeUtilization(q: Query, now: int) returns (result: Lookup)
    ensures result == UtilizationOf(q, now)
  {
    if q.QueryFailed? {
      return LookupError;
    }
    var rows := q.rows;
    if |rows| == 0 {
      return LookupMissing;
    }
    var maxUtil := 0.0;
    var found := false;
    for i := 0 to |rows|
      invariant found <==> exists row :: row in rows[..i] && Counts(row, now)
      invariant maxUtil == Worst(rows[..i], now)
    {
      var item := rows[i];
      assert rows[..i + 1] == rows[..i] + [item] && rows[..i + 1][..i] == rows[..i];
      CountsAppend(rows[..i], item, now);
      if item.None? {
        continue;
      }
      if Expired(item.value, now) {
        found := true;
        continue;
      }
      if item.value.used.None? {
        continue;
      }
      if item.value.max.None? || item.value.max.value <= 0.0 {
        continue;
      }
      var util := item.value.used.value / item.value.max.value;
      if util < 0.0 {
        util := 0.0;
      }
      if util > 1.0 {
        util := 1.0;
      }
      if util > maxUtil {
        maxUtil := util;
      }
      found := true;
    }
    assert rows[..|rows|] == rows;
    result := if found then Utilization(maxUtil) else LookupMissing;
  }
}
