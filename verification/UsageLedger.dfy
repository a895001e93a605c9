/**
 Usage records, the event table they are stored in, and the queries the dashboard asks of it.
 Times are seconds since the Unix epoch in UTC.
 */
module UsageLedger {
  // ---------------------------------------------------------------- totals

  datatype Totals = Totals(input: nat, cached: nat, output: nat, reasoning: nat) {
    function Of(metric: Metric): nat {
      match metric
      case Input => input
      case Cached => cached
      case Output => output
      case Reasoning => reasoning
    }
  }

  /** One of the four token counts. */
  datatype Metric = Input | Cached | Output | Reasoning

  datatype Time = Unset | At(unix: nat)

  datatype UsageRecord = UsageRecord(
    accountKey: string, tokenID: string, path: string, statusCode: int, isStream: bool,
    tokens: Totals, createdAt: Time)

  /** A row of the event table. */
  datatype Row = Row(
    accountKey: string, tokenID: string, path: string, statusCode: int, isStream: bool,
    tokens: Totals, createdUnix: nat)

  function Plus(a: Totals, b: Totals): (r: Totals)
    ensures forall metric :: r.Of(metric) == a.Of(metric) + b.Of(metric)
  {
    Totals(a.input + b.input, a.cached + b.cached, a.output + b.output, a.reasoning + b.reasoning)
  }

  /** One SUM over the rows that satisfy p. */
  function SumRows(rows: seq<Row>, p: Row -> bool, metric: Metric): nat
    decreases rows
  {
    if rows == [] then 0
    else (if p(rows[0]) then rows[0].tokens.Of(metric) else 0) + SumRows(rows[1..], p, metric)
  }

  /** The four SUMs of a query. */
  function TotalsOf(rows: seq<Row>, p: Row -> bool): (t: Totals)
    ensures forall metric :: t.Of(metric) == SumRows(rows, p, metric)
  {
    Totals(SumRows(rows, p, Input), SumRows(rows, p, Cached), SumRows(rows, p, Output), SumRows(rows, p, Reasoning))
  }

  lemma {:induction false} SumRowsConcat(a: seq<Row>, b: seq<Row>, p: Row -> bool, metric: Metric)
    ensures SumRows(a + b, p, metric) == SumRows(a, p, metric) + SumRows(b, p, metric)
    decreases a
  {
    if a == [] {
      assert a + b == b;
    } else {
      assert (a + b)[1..] == a[1..] + b;
      SumRowsConcat(a[1..], b, p, metric);
    }
  }

  /** The running sums of a query after one row more. */
  lemma AddRow(rows: seq<Row>, i: nat, p: Row -> bool)
    requires i < |rows|
    ensures TotalsOf(rows[..i + 1], p)
         == if p(rows[i]) then Plus(TotalsOf(rows[..i], p), rows[i].tokens) else TotalsOf(rows[..i], p)
  {
    assert rows[..i + 1] == rows[..i] + [rows[i]];
    forall metric
      ensures SumRows(rows[..i + 1], p, metric)
           == SumRows(rows[..i], p, metric) + if p(rows[i]) then rows[i].tokens.Of(metric) else 0
    {
      SumRowsConcat(rows[..i], [rows[i]], p, metric);
      assert SumRows([], p, metric) == 0;
    }
    TotalsByMetric(TotalsOf(rows[..i + 1], p),
                   if p(rows[i]) then Plus(TotalsOf(rows[..i], p), rows[i].tokens) else TotalsOf(rows[..i], p));
  }

  lemma TotalsByMetric(a: Totals, b: Totals)
    requires forall metric :: a.Of(metric) == b.Of(metric)
    ensures a == b
  {
    assert a.Of(Input) == b.Of(Input) && a.Of(Cached) == b.Of(Cached);
    assert a.Of(Output) == b.Of(Output) && a.Of(Reasoning) == b.Of(Reasoning);
  }

  lemma {:induction false} SumRowsMonotone(rows: seq<Row>, p: Row -> bool, q: Row -> bool, metric: Metric)
    requires forall row: Row :: p(row) ==> q(row)
    ensures SumRows(rows, p, metric) <= SumRows(rows, q, metric)
    decreases rows
  {
    if rows != [] {
      SumRowsMonotone(rows[1..], p, q, metric);
    }
  }

  lemma WindowsNest(rows: seq<Row>, cutoff: int, earlier: int)
    requires earlier <= cutoff
    ensures forall metric :: WindowTotals(rows, cutoff).Of(metric) <= WindowTotals(rows, earlier).Of(metric)
  {
    forall metric
      ensures SumRows(rows, Since(cutoff), metric) <= SumRows(rows, Since(earlier), metric)
    {
      SumRowsMonotone(rows, Since(cutoff), Since(earlier), metric);
    }
  }

  lemma WindowIsPart(rows: seq<Row>, cutoff: int)
    ensures forall metric :: WindowTotals(rows, cutoff).Of(metric) <= TotalsOf(rows, Every()).Of(metric)
  {
    forall metric
      ensures SumRows(rows, Since(cutoff), metric) <= SumRows(rows, Every(), metric)
    {
      SumRowsMonotone(rows, Since(cutoff), Every(), metric);
    }
  }

  // ---------------------------------------------------------------- inserts

  function RowOf(rec: UsageRecord, now: nat): Row
  {
    Row(rec.accountKey, rec.tokenID, rec.path, rec.statusCode, rec.isStream, rec.tokens,
        match rec.createdAt case At(unix) => unix case Unset => now)
  }

  /** The row has the record's columns, and its time, or the present one if it has none. */
  predicate Describes(row: Row, rec: UsageRecord, now: nat)
  {
    && row.accountKey == rec.accountKey && row.tokenID == rec.tokenID && row.path == rec.path
    && row.statusCode == rec.statusCode && row.isStream == rec.isStream && row.tokens == rec.tokens
    && row.createdUnix == if rec.createdAt.At? then rec.createdAt.unix else now
  }

  /** How the database answers: which single statements succeed, whether a commit does, and the clock. */
  datatype Answers = Answers(ok: nat -> bool, commitOk: bool, clock: nat -> nat)

  function RowsOf(records: seq<UsageRecord>, clock: nat -> nat): (r: seq<Row>)
    ensures |r| == |records|
  {
    seq(|records|, i requires 0 <= i < |records| => RowOf(records[i], clock(i)))
  }

  /** The rows left by inserting the first n records one by one. */
  function StoredSingly(records: seq<UsageRecord>, n: nat, answers: Answers): seq<Row>
    requires n <= |records|
  {
    if n == 0 then []
    else
      StoredSingly(records, n - 1, answers) +
      if answers.ok(n - 1) then [RowOf(records[n - 1], answers.clock(n - 1))] else []
  }

  class UsageDB {
    var rows: seq<Row>

    constructor ()
      ensures rows == []
    {
      rows := [];
    }

    method InsertUsage(rec: UsageRecord, ok: bool, now: nat) returns (inserted: bool)
      modifies this
      ensures inserted == ok
      ensures rows == old(rows) + if ok then [RowOf(rec, now)] else []
      ensures ok ==> |rows| == |old(rows)| + 1 && Describes(rows[|old(rows)|], rec, now)
    {
      if ok {
        rows := rows + [RowOf(rec, now)];
      }
      inserted := ok;
    }

    /** One transaction: every record is stored, or none is. */
    method InsertUsageBatch(records: seq<UsageRecord>, answers: Answers) returns (committed: bool)
      modifies this
      ensures committed <==> records == [] || (answers.commitOk && forall i: nat :: i < |records| ==> answers.ok(i))
      ensures rows == old(rows) + if committed then RowsOf(records, answers.clock) else []
      ensures committed ==>
                && |rows| == |old(rows)| + |records|
                && forall i :: 0 <= i < |records| ==> Describes(rows[|old(rows)| + i], records[i], answers.clock(i))
    {
      if |records| == 0 {
        return true;
      }
      var tx := rows;
      for i := 0 to |records|
        invariant tx == old(rows) + RowsOf(records, answers.clock)[..i]
        invariant rows == old(rows)
        invariant forall j: nat :: j < i ==> answers.ok(j)
      {
        if !answers.ok(i) {
          return false;
        }
        tx := tx + [RowOf(records[i], answers.clock(i))];
      }
      if !answers.commitOk {
        return false;
      }
      rows := tx;
      committed := true;
    }

    /** One UPDATE: every row of the token gets the account key. */
    method RekeyTokenUsage(tokenID: string, accountKey: string)
      modifies this
      ensures rows == if tokenID == "" || accountKey == "" then old(rows) else Rekeyed(old(rows), tokenID, accountKey)
    {
      if tokenID == "" || accountKey == "" {
        return;
      }
      rows := Rekeyed(rows, tokenID, accountKey);
    }

    /** The last `days` days up to today, oldest first, with the totals of each. */
    method DailyUsageBuckets(days: int, now: nat) returns (buckets: seq<Bucket>)
      ensures |buckets| == if days <= 0 then 0 else days
      ensures forall i :: 0 <= i < |buckets| ==>
                var day := DayOf(now) - days + 1 + i;
                buckets[i] == Bucket(day, DayTotals(rows, day))
      ensures forall i :: 0 <= i < |buckets| ==>
                && buckets[i].day * 86400 <= now - (|buckets| - 1 - i) * 86400 < (buckets[i].day + 1) * 86400
                && CountsBetween(buckets[i].totals, rows, buckets[i].day * 86400, (buckets[i].day + 1) * 86400)
    {
      if days <= 0 {
        return [];
      }
      var today := DayOf(now);
      var start := today - days + 1;
      var byDate := GroupByDay(rows, start, today);
      buckets := [];
      var day := start;
      while day <= today
        invariant start <= day <= today + 1
        invariant |buckets| == day - start
        invariant forall i :: 0 <= i < |buckets| ==> buckets[i] == Bucket(start + i, DayTotals(rows, start + i))
      {
        if day !in byDate {
          NoRowsNoTotals(rows, start, today, day);
        }
        buckets := buckets + [Bucket(day, if day in byDate then byDate[day] else Totals(0, 0, 0, 0))];
        day := day + 1;
      }
      forall i | 0 <= i < |buckets|
        ensures buckets[i].day * 86400 <= now - (|buckets| - 1 - i) * 86400 < (buckets[i].day + 1) * 86400
        ensures CountsBetween(buckets[i].totals, rows, buckets[i].day * 86400, (buckets[i].day + 1) * 86400)
      {
        DayIsItsSeconds(rows, buckets[i].day);
        DaysBefore(now, |buckets| - 1 - i);
      }
    }

    /**
     The dashboard's totals, since midnight, over three rolling windows and over everything, in one pass
     over the rows. No window holds more than a longer one.
     */
    method GlobalPeriodTotals(now: nat) returns (r: PeriodTotals)
      ensures r.daily == WindowTotals(rows, DayOf(now) * DAY)
      ensures r.recent7 == WindowTotals(rows, now - 7 * DAY)
      ensures r.recent30 == WindowTotals(rows, now - 30 * DAY)
      ensures r.recent90 == WindowTotals(rows, now - 90 * DAY)
      ensures r.total == TotalsOf(rows, Every())
      ensures forall metric ::
                r.daily.Of(metric) <= r.recent7.Of(metric) <= r.recent30.Of(metric)
                <= r.recent90.Of(metric) <= r.total.Of(metric)
      ensures CountsSince(r.daily, rows, now - now % 86400) && CountsSince(r.recent7, rows, now - 604800)
      ensures CountsSince(r.recent30, rows, now - 2592000) && CountsSince(r.recent90, rows, now - 7776000)
      ensures CountsSince(r.total, rows, 0)
    {
      var dayStart := DayOf(now) * DAY;
      var sevenDays, thirtyDays, ninetyDays := now - 7 * DAY, now - 30 * DAY, now - 90 * DAY;
      var zero := Totals(0, 0, 0, 0);
      r := PeriodTotals(zero, zero, zero, zero, zero);
      for i := 0 to |rows|
        invariant r.daily == WindowTotals(rows[..i], dayStart)
        invariant r.recent7 == WindowTotals(rows[..i], sevenDays)
        invariant r.recent30 == WindowTotals(rows[..i], thirtyDays)
        invariant r.recent90 == WindowTotals(rows[..i], ninetyDays)
        invariant r.total == TotalsOf(rows[..i], Every())
      {
        var row := rows[i];
        AddRow(rows, i, Since(dayStart));
        AddRow(rows, i, Since(sevenDays));
        AddRow(rows, i, Since(thirtyDays));
        AddRow(rows, i, Since(ninetyDays));
        AddRow(rows, i, Every());
        r := PeriodTotals(
          if row.createdUnix >= dayStart then Plus(r.daily, row.tokens) else r.daily,
          if row.createdUnix >= sevenDays then Plus(r.recent7, row.tokens) else r.recent7,
          if row.createdUnix >= thirtyDays then Plus(r.recent30, row.tokens) else r.recent30,
          if row.createdUnix >= ninetyDays then Plus(r.recent90, row.tokens) else r.recent90,
          Plus(r.total, row.tokens));
      }
      assert rows[..|rows|] == rows;
      WindowsNest(rows, dayStart, sevenDays);
      WindowsNest(rows, sevenDays, thirtyDays);
      WindowsNest(rows, thirtyDays, ninetyDays);
      WindowIsPart(rows, ninetyDays);
      WindowsCount(rows, now);
    }
  }

  // ---------------------------------------------------------------- queries

  const HOUR := 3600

  const DAY := 86400

  datatype Bucket = Bucket(day: int, totals: Totals)

  datatype PeriodTotals = PeriodTotals(
    daily: Totals, recent7: Totals, recent30: Totals, recent90: Totals, total: Totals)

  /** The UTC calendar day, counted from the epoch. */
  function DayOf(unix: nat): nat
  {
    unix / DAY
  }

  function DayTotals(rows: seq<Row>, day: int): Totals
  {
    TotalsOf(rows, OnDay(day))
  }

  function OnDay(day: int): Row -> bool
  {
    (row: Row) => DayOf(row.createdUnix) == day
  }

  function Since(cutoff: int): Row -> bool
  {
    (row: Row) => row.createdUnix >= cutoff
  }

  function OfAccount(account: string): Row -> bool
  {
    (row: Row) => row.accountKey == account
  }

  function OfToken(tokenID: string): Row -> bool
  {
    (row: Row) => row.tokenID == tokenID
  }

  function Every(): Row -> bool
  {
    (row: Row) => true
  }

  function WindowTotals(rows: seq<Row>, cutoff: int): Totals
  {
    TotalsOf(rows, Since(cutoff))
  }

  /** The tokens of the rows from the first second up to, not including, the last. */
  ghost predicate CountsBetween(t: Totals, rows: seq<Row>, first: int, last: int)
  {
    forall metric :: t.Of(metric) == SumRows(rows, (row: Row) => first <= row.createdUnix < last, metric)
  }

  ghost predicate CountsSince(t: Totals, rows: seq<Row>, first: int)
  {
    forall metric :: t.Of(metric) == SumRows(rows, (row: Row) => first <= row.createdUnix, metric)
  }

  lemma {:induction false} SameRowsSameSum(rows: seq<Row>, p: Row -> bool, q: Row -> bool, metric: Metric)
    requires forall i :: 0 <= i < |rows| ==> p(rows[i]) == q(rows[i])
    ensures SumRows(rows, p, metric) == SumRows(rows, q, metric)
    decreases rows
  {
    if rows != [] {
      SameRowsSameSum(rows[1..], p, q, metric);
    }
  }

  /** A UTC day has 86400 seconds, and day 0 begins with second 0. */
  lemma DayIsItsSeconds(rows: seq<Row>, day: int)
    ensures CountsBetween(DayTotals(rows, day), rows, day * 86400, (day + 1) * 86400)
  {
    forall metric
      ensures SumRows(rows, OnDay(day), metric)
           == SumRows(rows, (row: Row) => day * 86400 <= row.createdUnix < (day + 1) * 86400, metric)
    {
      SameRowsSameSum(rows, OnDay(day), (row: Row) => day * 86400 <= row.createdUnix < (day + 1) * 86400, metric);
    }
  }

  lemma DaysBefore(now: nat, days: nat)
    ensures (DayOf(now) - days) * 86400 <= now - days * 86400 < (DayOf(now) - days + 1) * 86400
  {
  }

  lemma WindowsCount(rows: seq<Row>, now: nat)
    ensures CountsSince(WindowTotals(rows, DayOf(now) * DAY), rows, now - now % 86400)
    ensures CountsSince(WindowTotals(rows, now - 7 * DAY), rows, now - 604800)
    ensures CountsSince(WindowTotals(rows, now - 30 * DAY), rows, now - 2592000)
    ensures CountsSince(WindowTotals(rows, now - 90 * DAY), rows, now - 7776000)
    ensures CountsSince(TotalsOf(rows, Every()), rows, 0)
  {
    WindowCounts(rows, Since(DayOf(now) * DAY), now - now % 86400);
    WindowCounts(rows, Since(now - 7 * DAY), now - 604800);
    WindowCounts(rows, Since(now - 30 * DAY), now - 2592000);
    WindowCounts(rows, Since(now - 90 * DAY), now - 7776000);
    WindowCounts(rows, Every(), 0);
  }

  lemma WindowCounts(rows: seq<Row>, p: Row -> bool, first: int)
    requires forall row: Row :: p(row) <==> first <= row.createdUnix
    ensures CountsSince(TotalsOf(rows, p), rows, first)
  {
    forall metric
      ensures SumRows(rows, p, metric) == SumRows(rows, (row: Row) => first <= row.createdUnix, metric)
    {
      SameRowsSameSum(rows, p, (row: Row) => first <= row.createdUnix, metric);
    }
  }

  /** The grouped query: a day has an entry only when a row of the range falls on it. */
  function GroupByDay(rows: seq<Row>, first: int, last: int): map<int, Totals>
  {
    map day | day in (set row | row in rows && first <= DayOf(row.createdUnix) <= last :: DayOf(row.createdUnix) as int)
      :: DayTotals(rows, day)
  }

  lemma {:induction false} NoRowsNoSum(rows: seq<Row>, p: Row -> bool, metric: Metric)
    requires forall i :: 0 <= i < |rows| ==> !p(rows[i])
    ensures SumRows(rows, p, metric) == 0
    decreases rows
  {
    if rows != [] {
      NoRowsNoSum(rows[1..], p, metric);
    }
  }

  /** A day without an entry in the grouped query has no tokens. */
  lemma NoRowsNoTotals(rows: seq<Row>, first: int, last: int, day: int)
    requires first <= day <= last && day !in GroupByDay(rows, first, last)
    ensures DayTotals(rows, day) == Totals(0, 0, 0, 0)
  {
    forall metric
      ensures SumRows(rows, OnDay(day), metric) == 0
    {
      NoRowsNoSum(rows, OnDay(day), metric);
    }
  }

  // ---------------------------------------------------------------- rekeying

  function Rekeyed(rows: seq<Row>, tokenID: string, accountKey: string): (r: seq<Row>)
    ensures |r| == |rows|
  {
    seq(|rows|, i requires 0 <= i < |rows| =>
      if rows[i].tokenID == tokenID && rows[i].accountKey != accountKey then rows[i].(accountKey := accountKey)
      else rows[i])
  }

  /** Any total that does not ask for the account stays what it was. */
  lemma {:induction false} RekeyKeepsSums(
    rows: seq<Row>, tokenID: string, accountKey: string, p: Row -> bool, metric: Metric)
    requires forall row: Row, key: string :: p(row.(accountKey := key)) == p(row)
    ensures SumRows(Rekeyed(rows, tokenID, accountKey), p, metric) == SumRows(rows, p, metric)
    decreases rows
  {
    if rows != [] {
      var after := Rekeyed(rows, tokenID, accountKey);
      assert after[1..] == Rekeyed(rows[1..], tokenID, accountKey);
      assert p(rows[0].(accountKey := accountKey)) == p(rows[0]);
      RekeyKeepsSums(rows[1..], tokenID, accountKey, p, metric);
    }
  }

  /** The rows that change account. */
  function Moving(tokenID: string, accountKey: string): Row -> bool
  {
    (row: Row) => row.tokenID == tokenID && row.accountKey != accountKey
  }

  /** The account gains exactly what the token had under other accounts. */
  lemma {:induction false} RekeyGains(rows: seq<Row>, tokenID: string, accountKey: string, metric: Metric)
    ensures SumRows(Rekeyed(rows, tokenID, accountKey), OfAccount(accountKey), metric)
         == SumRows(rows, OfAccount(accountKey), metric) + SumRows(rows, Moving(tokenID, accountKey), metric)
    decreases rows
  {
    if rows != [] {
      var after := Rekeyed(rows, tokenID, accountKey);
      assert after[1..] == Rekeyed(rows[1..], tokenID, accountKey);
      RekeyGains(rows[1..], tokenID, accountKey, metric);
    }
  }

  /**
   Rekeying changes the account of the token's rows and nothing else about any row; the global
   totals and the totals of every token stay what they were.
   */
  lemma RekeyTouchesOnlyTheToken(rows: seq<Row>, tokenID: string, accountKey: string, metric: Metric)
    ensures forall i :: 0 <= i < |rows| ==>
              var after := Rekeyed(rows, tokenID, accountKey)[i];
              && after == rows[i].(accountKey := after.accountKey)
              && after.accountKey == if rows[i].tokenID == tokenID then accountKey else rows[i].accountKey
    ensures SumRows(Rekeyed(rows, tokenID, accountKey), Every(), metric) == SumRows(rows, Every(), metric)
    ensures forall token: string ::
              SumRows(Rekeyed(rows, tokenID, accountKey), OfToken(token), metric)
              == SumRows(rows, OfToken(token), metric)
  {
    RekeyKeepsSums(rows, tokenID, accountKey, Every(), metric);
    forall token: string
      ensures SumRows(Rekeyed(rows, tokenID, accountKey), OfToken(token), metric)
           == SumRows(rows, OfToken(token), metric)
    {
      RekeyKeepsSums(rows, tokenID, accountKey, OfToken(token), metric);
    }
  }
}
