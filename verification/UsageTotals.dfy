/**
 What coalescing means for the numbers: per-key conservation over every run, exact day totals, and
 rolling windows that are low by at most the tokens of the first hour of the window.
 */
module UsageTotals {
  import opened UsageLedger
  import opened UsageSink
  import opened UsageConservation

  function SumRecords(recs: seq<UsageRecord>, p: UsageRecord -> bool, metric: Metric): nat
    decreases recs
  {
    if recs == [] then 0
    else
      var last := recs[|recs| - 1];
      SumRecords(recs[..|recs| - 1], p, metric) + if p(last) then last.tokens.Of(metric) else 0
  }

  lemma {:induction false} SumConcat(a: seq<UsageRecord>, b: seq<UsageRecord>, p: UsageRecord -> bool, metric: Metric)
    ensures SumRecords(a + b, p, metric) == SumRecords(a, p, metric) + SumRecords(b, p, metric)
    decreases b
  {
    if b == [] {
      assert a + b == a;
    } else {
      assert (a + b)[..|a + b| - 1] == a + b[..|b| - 1];
      SumConcat(a, b[..|b| - 1], p, metric);
    }
  }

  /** If p only holds where q does, p selects no more than q. */
  lemma {:induction false} SumMonotone(
    recs: seq<UsageRecord>, p: UsageRecord -> bool, q: UsageRecord -> bool, metric: Metric)
    requires forall i :: 0 <= i < |recs| && p(recs[i]) ==> q(recs[i])
    ensures SumRecords(recs, p, metric) <= SumRecords(recs, q, metric)
    decreases recs
  {
    if recs != [] {
      SumMonotone(recs[..|recs| - 1], p, q, metric);
    }
  }

  // ---------------------------------------------------------------- buckets and the records behind them

  /** The tokens of the buckets that satisfy p, bucket by bucket. */
  ghost function SumBuckets(order: seq<Key>, spilled: seq<Spill>, p: Key -> bool, metric: Metric): nat
  {
    if order == [] then 0
    else
      var key := order[|order| - 1];
      SumBuckets(order[..|order| - 1], spilled, p, metric) + if p(key) then SpillSum(spilled, key, metric) else 0
  }

  /** The tokens of the spilled records whose bucket satisfies p, record by record. */
  function SumSpills(spilled: seq<Spill>, p: Key -> bool, metric: Metric): nat
  {
    if spilled == [] then 0
    else
      var last := spilled[|spilled| - 1];
      SumSpills(spilled[..|spilled| - 1], p, metric) + if p(last.key) then last.rec.tokens.Of(metric) else 0
  }

  lemma {:induction false} OneSpillMore(order: seq<Key>, spilled: seq<Spill>, s: Spill, p: Key -> bool, metric: Metric)
    requires forall i, j :: 0 <= i < j < |order| ==> order[i] != order[j]
    ensures SumBuckets(order, spilled + [s], p, metric)
         == SumBuckets(order, spilled, p, metric) + if s.key in order && p(s.key) then s.rec.tokens.Of(metric) else 0
    decreases order
  {
    if order != [] {
      var rest, key := order[..|order| - 1], order[|order| - 1];
      OneSpillMore(rest, spilled, s, p, metric);
      SpillSumMore(spilled, s, key, metric);
      assert order == rest + [key];
      assert key !in rest;
    }
  }

  lemma {:induction false} NoSpills(order: seq<Key>, p: Key -> bool, metric: Metric)
    ensures SumBuckets(order, [], p, metric) == 0
    decreases order
  {
    if order != [] {
      NoSpills(order[..|order| - 1], p, metric);
    }
  }

  /** Summing bucket by bucket or record by record is the same. */
  lemma {:induction false} BucketsHoldTheSpills(order: seq<Key>, spilled: seq<Spill>, p: Key -> bool, metric: Metric)
    requires forall i, j :: 0 <= i < j < |order| ==> order[i] != order[j]
    requires forall i :: 0 <= i < |spilled| ==> spilled[i].key in order
    ensures SumBuckets(order, spilled, p, metric) == SumSpills(spilled, p, metric)
    decreases spilled
  {
    if spilled == [] {
      NoSpills(order, p, metric);
    } else {
      var rest, last := spilled[..|spilled| - 1], spilled[|spilled| - 1];
      BucketsHoldTheSpills(order, rest, p, metric);
      OneSpillMore(order, rest, last, p, metric);
      assert spilled == rest + [last];
    }
  }

  /** The bucket's record satisfies p. */
  function BucketSatisfies(overflow: map<Key, UsageRecord>, p: UsageRecord -> bool): Key -> bool
  {
    (key: Key) => key in overflow && p(overflow[key])
  }

  lemma {:induction false} ValuesSum(d: Delivery, n: nat, p: UsageRecord -> bool, metric: Metric)
    requires GoodDelivery(d) && n <= |d.order|
    ensures SumRecords(Values(d.overflow, d.order)[..n], p, metric)
         == SumBuckets(d.order[..n], d.spilled, BucketSatisfies(d.overflow, p), metric)
  {
    if n > 0 {
      ValuesSum(d, n - 1, p, metric);
      var values := Values(d.overflow, d.order);
      assert values[..n][..n - 1] == values[..n - 1] && d.order[..n][..n - 1] == d.order[..n - 1];
      assert d.order[n - 1] in d.order;
    }
  }

  lemma {:induction false} SpillsAtMost(
    d: Delivery, n: nat, p: UsageRecord -> bool, q: UsageRecord -> bool, metric: Metric)
    requires GoodDelivery(d) && n <= |d.spilled|
    requires forall s <- d.spilled :: p(d.overflow[s.key]) ==> q(s.rec)
    ensures SumSpills(d.spilled[..n], BucketSatisfies(d.overflow, p), metric)
         <= SumRecords(Records(d.spilled)[..n], q, metric)
  {
    if n > 0 {
      SpillsAtMost(d, n - 1, p, q, metric);
      var recs := Records(d.spilled);
      assert recs[..n][..n - 1] == recs[..n - 1] && d.spilled[..n][..n - 1] == d.spilled[..n - 1];
      assert d.spilled[n - 1] in d.spilled;
    }
  }

  lemma {:induction false} SpillsAtLeast(
    d: Delivery, n: nat, p: UsageRecord -> bool, q: UsageRecord -> bool, metric: Metric)
    requires GoodDelivery(d) && n <= |d.spilled|
    requires forall s <- d.spilled :: q(s.rec) ==> p(d.overflow[s.key])
    ensures SumRecords(Records(d.spilled)[..n], q, metric)
         <= SumSpills(d.spilled[..n], BucketSatisfies(d.overflow, p), metric)
  {
    if n > 0 {
      SpillsAtLeast(d, n - 1, p, q, metric);
      var recs := Records(d.spilled);
      assert recs[..n][..n - 1] == recs[..n - 1] && d.spilled[..n][..n - 1] == d.spilled[..n - 1];
      assert d.spilled[n - 1] in d.spilled;
    }
  }

  /** A batch in terms of the records it stands for. */
  lemma BatchSum(d: Delivery, p: UsageRecord -> bool, metric: Metric)
    requires GoodDelivery(d)
    ensures SumRecords(Batch(d), p, metric)
         == SumRecords(d.queued, p, metric) + SumSpills(d.spilled, BucketSatisfies(d.overflow, p), metric)
  {
    var values := Values(d.overflow, d.order);
    ValuesSum(d, |d.order|, p, metric);
    assert values[..|d.order|] == values && d.order[..|d.order|] == d.order;
    BucketsHoldTheSpills(d.order, d.spilled, BucketSatisfies(d.overflow, p), metric);
    SumConcat(d.queued, values, p, metric);
  }

  /** The record with its time cut to the hour, and the tokens of its bucket. */
  function AsBucket(r: UsageRecord, t: Totals): UsageRecord
    requires r.createdAt.At?
  {
    r.(tokens := t, createdAt := At(HourOf(r.createdAt.unix)))
  }

  /** p asked of what is stored implies q asked of what was recorded, whatever the merged token counts. */
  ghost predicate StoredImpliesRecorded(p: UsageRecord -> bool, q: UsageRecord -> bool)
  {
    && (forall r: UsageRecord :: r.createdAt.At? && p(r) ==> q(r))
    && (forall r: UsageRecord, t: Totals :: r.createdAt.At? && p(AsBucket(r, t)) ==> q(r))
  }

  ghost predicate RecordedImpliesStored(p: UsageRecord -> bool, q: UsageRecord -> bool)
  {
    && (forall r: UsageRecord :: r.createdAt.At? && q(r) ==> p(r))
    && (forall r: UsageRecord, t: Totals :: r.createdAt.At? && q(r) ==> p(AsBucket(r, t)))
  }

  predicate Timed(recs: seq<UsageRecord>)
  {
    forall i :: 0 <= i < |recs| ==> recs[i].createdAt.At?
  }

  /** A bucket is the record behind it with other tokens and the hour as its time. */
  lemma BucketOfRecord(d: Delivery, s: Spill)
    requires GoodDelivery(d) && s in d.spilled && s.rec.createdAt.At?
    ensures d.overflow[s.key] == AsBucket(s.rec, d.overflow[s.key].tokens)
  {
    assert Belongs(s.rec, s.key) && Belongs(d.overflow[s.key], s.key);
  }

  lemma SourcesTimed(d: Delivery)
    requires Timed(Sources(d))
    ensures Timed(d.queued) && forall s <- d.spilled :: s.rec.createdAt.At?
  {
    forall i | 0 <= i < |d.queued|
      ensures d.queued[i].createdAt.At?
    {
      assert Sources(d)[i] == d.queued[i];
    }
    forall i | 0 <= i < |d.spilled|
      ensures d.spilled[i].rec.createdAt.At?
    {
      assert Sources(d)[|d.queued| + i] == d.spilled[i].rec;
    }
  }

  lemma BatchAtMost(d: Delivery, p: UsageRecord -> bool, q: UsageRecord -> bool, metric: Metric)
    requires GoodDelivery(d) && Timed(Sources(d)) && StoredImpliesRecorded(p, q)
    ensures SumRecords(Batch(d), p, metric) <= SumRecords(Sources(d), q, metric)
  {
    SourcesTimed(d);
    BatchSum(d, p, metric);
    SumConcat(d.queued, Records(d.spilled), q, metric);
    SumMonotone(d.queued, p, q, metric);
    forall s | s in d.spilled
      ensures p(d.overflow[s.key]) ==> q(s.rec)
    {
      BucketOfRecord(d, s);
    }
    SpillsAtMost(d, |d.spilled|, p, q, metric);
    assert d.spilled[..|d.spilled|] == d.spilled && Records(d.spilled)[..|d.spilled|] == Records(d.spilled);
  }

  lemma BatchAtLeast(d: Delivery, p: UsageRecord -> bool, q: UsageRecord -> bool, metric: Metric)
    requires GoodDelivery(d) && Timed(Sources(d)) && RecordedImpliesStored(p, q)
    ensures SumRecords(Sources(d), q, metric) <= SumRecords(Batch(d), p, metric)
  {
    SourcesTimed(d);
    BatchSum(d, p, metric);
    SumConcat(d.queued, Records(d.spilled), q, metric);
    SumMonotone(d.queued, q, p, metric);
    forall s | s in d.spilled
      ensures q(s.rec) ==> p(d.overflow[s.key])
    {
      BucketOfRecord(d, s);
    }
    SpillsAtLeast(d, |d.spilled|, p, q, metric);
    assert d.spilled[..|d.spilled|] == d.spilled && Records(d.spilled)[..|d.spilled|] == Records(d.spilled);
  }

  lemma SplitTimed(a: seq<UsageRecord>, b: seq<UsageRecord>)
    requires Timed(a + b)
    ensures Timed(a) && Timed(b)
  {
    assert forall i :: 0 <= i < |a| ==> (a + b)[i] == a[i];
    assert forall i :: 0 <= i < |b| ==> (a + b)[|a| + i] == b[i];
  }

  lemma {:induction false} BatchesAtMost(
    ds: seq<Delivery>, p: UsageRecord -> bool, q: UsageRecord -> bool, metric: Metric)
    requires (forall d <- ds :: GoodDelivery(d)) && Timed(AllSources(ds)) && StoredImpliesRecorded(p, q)
    ensures SumRecords(Batches(ds), p, metric) <= SumRecords(AllSources(ds), q, metric)
  {
    if ds != [] {
      var rest, last := ds[..|ds| - 1], ds[|ds| - 1];
      SplitTimed(AllSources(rest), Sources(last));
      BatchesAtMost(rest, p, q, metric);
      BatchAtMost(last, p, q, metric);
      SumConcat(Batches(rest), Batch(last), p, metric);
      SumConcat(AllSources(rest), Sources(last), q, metric);
    }
  }

  lemma {:induction false} BatchesAtLeast(
    ds: seq<Delivery>, p: UsageRecord -> bool, q: UsageRecord -> bool, metric: Metric)
    requires (forall d <- ds :: GoodDelivery(d)) && Timed(AllSources(ds)) && RecordedImpliesStored(p, q)
    ensures SumRecords(AllSources(ds), q, metric) <= SumRecords(Batches(ds), p, metric)
  {
    if ds != [] {
      var rest, last := ds[..|ds| - 1], ds[|ds| - 1];
      SplitTimed(AllSources(rest), Sources(last));
      BatchesAtLeast(rest, p, q, metric);
      BatchAtLeast(last, p, q, metric);
      SumConcat(Batches(rest), Batch(last), p, metric);
      SumConcat(AllSources(rest), Sources(last), q, metric);
    }
  }

  // ---------------------------------------------------------------- every run

  /** The accepted tokens are those still queued, those in buckets, and those handed over. */
  ghost predicate Balanced(w: World, q: UsageRecord -> bool, metric: Metric)
  {
    SumRecords(w.accepted, q, metric)
    == SumRecords(w.sink.queued, q, metric) + SumRecords(Records(w.spilled), q, metric)
       + SumRecords(AllSources(w.deliveries), q, metric)
  }

  lemma SumOneMore(recs: seq<UsageRecord>, rec: UsageRecord, p: UsageRecord -> bool, metric: Metric)
    ensures SumRecords(recs + [rec], p, metric)
         == SumRecords(recs, p, metric) + if p(rec) then rec.tokens.Of(metric) else 0
  {
    assert (recs + [rec])[..|recs|] == recs;
  }

  /** An accepted record is queued or spilled, and nothing else moves. */
  lemma RecordParts(w: World, rec: UsageRecord, now: nat, capacity: nat)
    ensures var after := Apply(w, RecordCall(rec, now), capacity);
            || after == w
            || (&& after.accepted == w.accepted + [rec] && after.deliveries == w.deliveries
                && after.sink.queued == w.sink.queued + [rec] && Records(after.spilled) == Records(w.spilled))
            || (&& after.accepted == w.accepted + [rec] && after.deliveries == w.deliveries
                && after.sink.queued == w.sink.queued && Records(after.spilled) == Records(w.spilled) + [rec])
  {
    assert Records(w.spilled + [Spill(OverflowBucket(rec, now), rec)]) == Records(w.spilled) + [rec];
  }

  lemma RecordKeepsBalance(
    w: World, rec: UsageRecord, now: nat, capacity: nat, q: UsageRecord -> bool, metric: Metric)
    requires Balanced(w, q, metric)
    ensures Balanced(Apply(w, RecordCall(rec, now), capacity), q, metric)
  {
    RecordParts(w, rec, now, capacity);
    SumOneMore(w.accepted, rec, q, metric);
    SumOneMore(w.sink.queued, rec, q, metric);
    SumOneMore(Records(w.spilled), rec, q, metric);
  }

  lemma TakeKeepsBalance(w: World, order: seq<Key>, capacity: nat, q: UsageRecord -> bool, metric: Metric)
    requires Balanced(w, q, metric) && Enabled(w, Take(order))
    ensures Balanced(Apply(w, Take(order), capacity), q, metric)
  {
    var d := Delivery(w.sink.queued, w.sink.overflow, order, w.spilled);
    SourcesMore(w.deliveries, d);
    SumConcat(AllSources(w.deliveries), Sources(d), q, metric);
    SumConcat(d.queued, Records(d.spilled), q, metric);
    assert Records([]) == [];
  }

  lemma StepKeepsBalance(w: World, e: Event, capacity: nat, q: UsageRecord -> bool, metric: Metric)
    requires Balanced(w, q, metric) && Enabled(w, e)
    ensures Balanced(Apply(w, e, capacity), q, metric)
  {
    match e
    case RecordCall(rec, now) => RecordKeepsBalance(w, rec, now, capacity, q, metric);
    case Take(order) => TakeKeepsBalance(w, order, capacity, q, metric);
    case _ =>
  }

  lemma {:induction false} RunKeepsBalance(
    w: World, events: seq<Event>, last: World, capacity: nat, q: UsageRecord -> bool, metric: Metric)
    requires Balanced(w, q, metric) && Runs(w, events, last, capacity)
    ensures Balanced(last, q, metric)
    decreases events
  {
    if events != [] {
      StepKeepsBalance(w, events[0], capacity, q, metric);
      RunKeepsBalance(Apply(w, events[0], capacity), events[1..], last, capacity, q, metric);
    }
  }

  lemma RunIsBalanced(events: seq<Event>, last: World, capacity: nat, q: UsageRecord -> bool, metric: Metric)
    requires Runs(START, events, last, capacity)
    ensures Inv(last, capacity) && Balanced(last, q, metric)
  {
    assert Records([]) == [];
    StartInv(capacity);
    RunKeepsInv(START, events, last, capacity);
    RunKeepsBalance(START, events, last, capacity, q, metric);
  }

  lemma PartTimed(part: seq<UsageRecord>, total: seq<UsageRecord>)
    requires Timed(total) && multiset(part) <= multiset(total)
    ensures Timed(part)
  {
    forall i | 0 <= i < |part|
      ensures part[i].createdAt.At?
    {
      assert part[i] in multiset(part);
      assert part[i] in multiset(total);
      assert part[i] in total;
    }
  }

  /** If the accepted records carry times, so does every part of them. */
  lemma AcceptedTimed(w: World, capacity: nat)
    requires Inv(w, capacity) && Timed(w.accepted)
    ensures Timed(AllSources(w.deliveries)) && Timed(w.sink.queued) && Timed(Records(w.spilled))
  {
    PartTimed(AllSources(w.deliveries), w.accepted);
    PartTimed(w.sink.queued, w.accepted);
    PartTimed(Records(w.spilled), w.accepted);
  }

  // ---------------------------------------------------------------- whatever the records' times

  /** The question depends neither on the time nor on the token counts of a record. */
  ghost predicate IgnoresTime(p: UsageRecord -> bool)
  {
    forall r: UsageRecord, t: Totals, at: Time :: p(r.(tokens := t, createdAt := at)) == p(r)
  }

  lemma BatchKeepsShape(d: Delivery, p: UsageRecord -> bool, metric: Metric)
    requires GoodDelivery(d) && IgnoresTime(p)
    ensures SumRecords(Batch(d), p, metric) == SumRecords(Sources(d), p, metric)
  {
    BatchSum(d, p, metric);
    SumConcat(d.queued, Records(d.spilled), p, metric);
    forall s | s in d.spilled
      ensures p(d.overflow[s.key]) == p(s.rec)
    {
      var bucket := d.overflow[s.key];
      assert Belongs(s.rec, s.key) && Belongs(bucket, s.key);
      assert bucket == s.rec.(tokens := bucket.tokens, createdAt := bucket.createdAt);
    }
    SpillsAtMost(d, |d.spilled|, p, p, metric);
    SpillsAtLeast(d, |d.spilled|, p, p, metric);
    assert d.spilled[..|d.spilled|] == d.spilled && Records(d.spilled)[..|d.spilled|] == Records(d.spilled);
  }

  lemma {:induction false} BatchesKeepShape(ds: seq<Delivery>, p: UsageRecord -> bool, metric: Metric)
    requires (forall d <- ds :: GoodDelivery(d)) && IgnoresTime(p)
    ensures SumRecords(Batches(ds), p, metric) == SumRecords(AllSources(ds), p, metric)
  {
    if ds != [] {
      var rest, last := ds[..|ds| - 1], ds[|ds| - 1];
      BatchesKeepShape(rest, p, metric);
      BatchKeepsShape(last, p, metric);
      SumConcat(Batches(rest), Batch(last), p, metric);
      SumConcat(AllSources(rest), Sources(last), p, metric);
    }
  }

  /** What the next batch would be. */
  function Waiting(s: Sink, order: seq<Key>): seq<UsageRecord>
    requires forall k <- order :: k in s.overflow
  {
    s.queued + Values(s.overflow, order)
  }

  /**
   In every run: both stores stay within capacity, every bucket maps back to its own key, and the worker
   takes at most one batch after Stop. Every batch was well made, and for every question that ignores
   times, records without a time included, the tokens that were accepted are those that wait in the queue
   and the buckets and those of the batches. Once the worker has exited nothing waits.
   */
  lemma EveryRun(events: seq<Event>, last: World, capacity: nat, order: seq<Key>,
                 p: UsageRecord -> bool, metric: Metric)
    requires Runs(START, events, last, capacity) && IsOrder(order, last.sink.overflow) && IgnoresTime(p)
    ensures |last.sink.queued| <= capacity && |last.sink.overflow| <= capacity
    ensures forall k :: k in last.sink.overflow ==> OverflowBucket(last.sink.overflow[k], 0) == k
    ensures last.takesAfterStop <= 1
    ensures forall d <- last.deliveries :: GoodDelivery(d)
    ensures SumRecords(last.accepted, p, metric)
         == SumRecords(Waiting(last.sink, order), p, metric) + SumRecords(Batches(last.deliveries), p, metric)
    ensures last.worker == Exited ==>
              && last.sink.queued == [] && last.sink.overflow == map[]
              && SumRecords(last.accepted, p, metric) == SumRecords(Batches(last.deliveries), p, metric)
              && multiset(AllSources(last.deliveries)) == multiset(last.accepted)
  {
    RunIsBalanced(events, last, capacity, p, metric);
    forall k | k in last.sink.overflow
      ensures OverflowBucket(last.sink.overflow[k], 0) == k
    {
      assert Belongs(last.sink.overflow[k], k);
    }
    BatchesKeepShape(last.deliveries, p, metric);
    var next := Delivery(last.sink.queued, last.sink.overflow, order, last.spilled);
    BatchKeepsShape(next, p, metric);
    SumConcat(next.queued, Records(next.spilled), p, metric);
    assert Records([]) == [];
  }

  // ---------------------------------------------------------------- per key and hour

  /** The records of one request shape and one UTC hour. */
  function InBucket(key: Key): UsageRecord -> bool
  {
    (r: UsageRecord) => r.createdAt.At? && OverflowBucket(r, 0) == key
  }

  /** The buckets of a sink hold, for one key, what was spilled for it. */
  lemma {:induction false} SpilledForKey(spilled: seq<Spill>, key: Key, metric: Metric)
    requires forall i :: 0 <= i < |spilled| ==> Belongs(spilled[i].rec, spilled[i].key) && spilled[i].rec.createdAt.At?
    ensures SumRecords(Records(spilled), InBucket(key), metric) == SpillSum(spilled, key, metric)
  {
    if spilled != [] {
      var rest := spilled[..|spilled| - 1];
      SpilledForKey(rest, key, metric);
      assert Records(spilled)[..|rest|] == Records(rest);
      assert Records(spilled)[|rest|] == spilled[|rest|].rec;
      assert Belongs(spilled[|rest|].rec, spilled[|rest|].key);
    }
  }

  /**
   Conservation. In every run, for every request shape and hour and each token count, what was
   accepted is what is queued, plus what the bucket holds, plus what was handed to the database.
   */
  lemma TokensAreConserved(events: seq<Event>, last: World, capacity: nat, key: Key, metric: Metric)
    requires Runs(START, events, last, capacity) && Timed(last.accepted)
    ensures forall d <- last.deliveries :: GoodDelivery(d)
    ensures SumRecords(last.accepted, InBucket(key), metric)
         == SumRecords(last.sink.queued, InBucket(key), metric)
            + (if key in last.sink.overflow then last.sink.overflow[key].tokens.Of(metric) else 0)
            + SumRecords(Batches(last.deliveries), InBucket(key), metric)
  {
    var p := InBucket(key);
    RunIsBalanced(events, last, capacity, p, metric);
    AcceptedTimed(last, capacity);
    BucketIsStable(key);
    BatchesAtMost(last.deliveries, p, p, metric);
    BatchesAtLeast(last.deliveries, p, p, metric);
    forall i | 0 <= i < |last.spilled|
      ensures last.spilled[i].rec.createdAt.At?
    {
      assert Records(last.spilled)[i] == last.spilled[i].rec;
    }
    SpilledForKey(last.spilled, key, metric);
    if key !in last.sink.overflow {
      NoSpillNoSum(last.spilled, key, metric);
    }
  }

  lemma BucketIsStable(key: Key)
    ensures StoredImpliesRecorded(InBucket(key), InBucket(key)) && RecordedImpliesStored(InBucket(key), InBucket(key))
  {
    forall r: UsageRecord, t: Totals | r.createdAt.At?
      ensures InBucket(key)(AsBucket(r, t)) == InBucket(key)(r)
    {
      HourIsItsOwnHour(r.createdAt.unix);
    }
  }

  // ---------------------------------------------------------------- the dashboard

  /** The row predicate asked of the record that is stored as that row. */
  function Stored(p: Row -> bool): UsageRecord -> bool
  {
    (r: UsageRecord) => p(RowOf(r, 0))
  }

  lemma OneRow(rec: UsageRecord, now: nat, p: Row -> bool, metric: Metric)
    requires rec.createdAt.At?
    ensures SumRows([RowOf(rec, now)], p, metric) == if Stored(p)(rec) then rec.tokens.Of(metric) else 0
  {
    var row := RowOf(rec, now);
    assert row == RowOf(rec, 0);
    assert SumRows([row], p, metric) == (if p(row) then row.tokens.Of(metric) else 0) + SumRows([], p, metric);
  }

  lemma {:induction false} RowsSum(recs: seq<UsageRecord>, n: nat, clock: nat -> nat, p: Row -> bool, metric: Metric)
    requires Timed(recs) && n <= |recs|
    ensures SumRows(RowsOf(recs, clock)[..n], p, metric) == SumRecords(recs[..n], Stored(p), metric)
  {
    if n > 0 {
      RowsSum(recs, n - 1, clock, p, metric);
      var rows := RowsOf(recs, clock);
      assert rows[..n] == rows[..n - 1] + [rows[n - 1]];
      assert recs[..n][..n - 1] == recs[..n - 1];
      SumRowsConcat(rows[..n - 1], [rows[n - 1]], p, metric);
      OneRow(recs[n - 1], clock(n - 1), p, metric);
    }
  }

  lemma BatchTimed(d: Delivery)
    requires GoodDelivery(d) && Timed(Sources(d))
    ensures Timed(Batch(d))
  {
    SourcesTimed(d);
    var values := Values(d.overflow, d.order);
    forall i | 0 <= i < |values|
      ensures values[i].createdAt.At?
    {
      assert d.order[i] in d.order;
    }
  }

  /** The rows that the worker's inserts leave, batch after batch, however the database answers. */
  ghost function Table(ds: seq<Delivery>, batch: nat -> Answers, single: nat -> Answers): seq<Row>
    requires forall d <- ds :: GoodDelivery(d)
  {
    if ds == [] then []
    else
      var n := |ds| - 1;
      Table(ds[..n], batch, single) + Inserted(Batch(ds[n]), batch(n), single(n))
  }

  /** Transactions may fail as they like; the single inserts that follow do not. */
  ghost predicate SinglesSucceed(single: nat -> Answers)
  {
    forall n: nat, i: nat :: single(n).ok(i)
  }

  lemma InsertedSum(recs: seq<UsageRecord>, batch: Answers, single: Answers, p: Row -> bool, metric: Metric)
    requires Timed(recs) && forall i: nat :: i < |recs| ==> single.ok(i)
    ensures SumRows(Inserted(recs, batch, single), p, metric) == SumRecords(recs, Stored(p), metric)
  {
    StoredExactlyOnce(recs, |recs|, single);
    RowsSum(recs, |recs|, batch.clock, p, metric);
    RowsSum(recs, |recs|, single.clock, p, metric);
    assert recs[..|recs|] == recs;
    assert RowsOf(recs, batch.clock)[..|recs|] == RowsOf(recs, batch.clock);
    assert RowsOf(recs, single.clock)[..|recs|] == RowsOf(recs, single.clock);
  }

  lemma {:induction false} TableSum(
    ds: seq<Delivery>, batch: nat -> Answers, single: nat -> Answers, p: Row -> bool, metric: Metric)
    requires (forall d <- ds :: GoodDelivery(d)) && Timed(AllSources(ds)) && SinglesSucceed(single)
    ensures SumRows(Table(ds, batch, single), p, metric) == SumRecords(Batches(ds), Stored(p), metric)
  {
    if ds != [] {
      var n := |ds| - 1;
      SplitTimed(AllSources(ds[..n]), Sources(ds[n]));
      TableSum(ds[..n], batch, single, p, metric);
      BatchTimed(ds[n]);
      InsertedSum(Batch(ds[n]), batch(n), single(n), p, metric);
      SumRowsConcat(Table(ds[..n], batch, single), Inserted(Batch(ds[n]), batch(n), single(n)), p, metric);
      SumConcat(Batches(ds[..n]), Batch(ds[n]), Stored(p), metric);
    }
  }

  lemma SeparateSum(recs: seq<UsageRecord>, clock: nat -> nat, p: Row -> bool, metric: Metric)
    requires Timed(recs)
    ensures SumRows(RowsOf(recs, clock), p, metric) == SumRecords(recs, Stored(p), metric)
  {
    RowsSum(recs, |recs|, clock, p, metric);
    assert RowsOf(recs, clock)[..|recs|] == RowsOf(recs, clock) && recs[..|recs|] == recs;
  }

  lemma {:induction false} PrefixTimed(ds: seq<Delivery>, n: nat)
    requires n <= |ds| && Timed(AllSources(ds))
    ensures Timed(AllSources(ds[..n]))
  {
    if n == |ds| {
      assert ds[..n] == ds;
    } else {
      var rest := ds[..|ds| - 1];
      SplitTimed(AllSources(rest), Sources(ds[|ds| - 1]));
      PrefixTimed(rest, n);
      assert rest[..n] == ds[..n];
    }
  }

  /** Batches that have been inserted in a run, and once all were and the worker is gone, all accepted records. */
  lemma DeliveredOfRun(events: seq<Event>, last: World, capacity: nat, done: nat)
    requires Runs(START, events, last, capacity) && Timed(last.accepted) && done <= |last.deliveries|
    ensures (forall d <- last.deliveries :: GoodDelivery(d)) && Timed(AllSources(last.deliveries[..done]))
  {
    RunIsBalanced(events, last, capacity, (r: UsageRecord) => true, Input);
    AcceptedTimed(last, capacity);
    PrefixTimed(last.deliveries, done);
  }

  /** After a drained run the accepted records have the totals of the records behind the batches. */
  lemma DrainedSum(events: seq<Event>, last: World, capacity: nat, clock: nat -> nat, p: Row -> bool, metric: Metric)
    requires Runs(START, events, last, capacity) && Timed(last.accepted) && last.worker == Exited
    ensures SumRows(RowsOf(AllSources(last.deliveries), clock), p, metric)
         == SumRows(RowsOf(last.accepted, clock), p, metric)
  {
    RunIsBalanced(events, last, capacity, Stored(p), metric);
    AcceptedTimed(last, capacity);
    SeparateSum(AllSources(last.deliveries), clock, p, metric);
    SeparateSum(last.accepted, clock, p, metric);
    assert Records([]) == [];
  }

  lemma SameDay(unix: nat)
    ensures DayOf(HourOf(unix)) == DayOf(unix)
  {
    var d, r := unix / DAY, unix % DAY;
    assert unix == 3600 * (24 * d) + r;
    assert unix / 3600 == 24 * d + r / 3600;
    assert HourOf(unix) == DAY * d + r / 3600 * 3600;
  }

  lemma DayIsCoarse(day: int)
    ensures StoredImpliesRecorded(Stored(OnDay(day)), Stored(OnDay(day)))
    ensures RecordedImpliesStored(Stored(OnDay(day)), Stored(OnDay(day)))
  {
    forall r: UsageRecord, t: Totals | r.createdAt.At?
      ensures Stored(OnDay(day))(AsBucket(r, t)) == Stored(OnDay(day))(r)
    {
      SameDay(r.createdAt.unix);
      assert OnDay(day)(RowOf(AsBucket(r, t), 0)) == OnDay(day)(RowOf(r, 0));
    }
  }

  lemma DaySum(ds: seq<Delivery>, batch: nat -> Answers, single: nat -> Answers, clock: nat -> nat, day: int,
               metric: Metric)
    requires (forall d <- ds :: GoodDelivery(d)) && Timed(AllSources(ds)) && SinglesSucceed(single)
    ensures SumRows(Table(ds, batch, single), OnDay(day), metric)
         == SumRows(RowsOf(AllSources(ds), clock), OnDay(day), metric)
  {
    var p := OnDay(day);
    TableSum(ds, batch, single, p, metric);
    SeparateSum(AllSources(ds), clock, p, metric);
    DayIsCoarse(day);
    BatchesAtMost(ds, Stored(p), Stored(p), metric);
    BatchesAtLeast(ds, Stored(p), Stored(p), metric);
  }

  /**
   At every moment of every run, whatever transactions failed, the table's totals for every UTC day are those of
   storing separately each record behind the batches inserted so far. After a drained run these are the accepted
   records.
   */
  lemma DaysAreExact(events: seq<Event>, last: World, capacity: nat, done: nat,
                     batch: nat -> Answers, single: nat -> Answers, clock: nat -> nat, day: int)
    requires Runs(START, events, last, capacity) && Timed(last.accepted) && done <= |last.deliveries|
    requires SinglesSucceed(single)
    ensures forall d <- last.deliveries :: GoodDelivery(d)
    ensures var inserted := last.deliveries[..done];
            DayTotals(Table(inserted, batch, single), day) == DayTotals(RowsOf(AllSources(inserted), clock), day)
    ensures last.worker == Exited ==>
              DayTotals(Table(last.deliveries, batch, single), day) == DayTotals(RowsOf(last.accepted, clock), day)
  {
    DeliveredOfRun(events, last, capacity, done);
    DeliveredOfRun(events, last, capacity, |last.deliveries|);
    assert last.deliveries[..|last.deliveries|] == last.deliveries;
    forall metric
      ensures SumRows(Table(last.deliveries[..done], batch, single), OnDay(day), metric)
           == SumRows(RowsOf(AllSources(last.deliveries[..done]), clock), OnDay(day), metric)
      ensures last.worker == Exited ==>
                SumRows(Table(last.deliveries, batch, single), OnDay(day), metric)
                == SumRows(RowsOf(last.accepted, clock), OnDay(day), metric)
    {
      DaySum(last.deliveries[..done], batch, single, clock, day, metric);
      if last.worker == Exited {
        DaySum(last.deliveries, batch, single, clock, day, metric);
        DrainedSum(events, last, capacity, clock, OnDay(day), metric);
      }
    }
  }

  function FirstHour(cutoff: int): Row -> bool
  {
    (row: Row) => cutoff <= row.createdUnix < cutoff + HOUR
  }

  lemma HourBounds(unix: nat)
    ensures HourOf(unix) <= unix < HourOf(unix) + HOUR
  {
  }

  lemma {:induction false} WindowSplits(rows: seq<Row>, cutoff: int, metric: Metric)
    ensures SumRows(rows, Since(cutoff), metric)
         == SumRows(rows, Since(cutoff + HOUR), metric) + SumRows(rows, FirstHour(cutoff), metric)
    decreases rows
  {
    if rows != [] {
      WindowSplits(rows[1..], cutoff, metric);
    }
  }

  /** The table's total for the window is at most the exact one, and lacks at most the first hour of it. */
  ghost predicate WindowClose(rows: seq<Row>, exact: seq<Row>, cutoff: int, metric: Metric)
  {
    && WindowTotals(rows, cutoff).Of(metric) <= WindowTotals(exact, cutoff).Of(metric)
    && WindowTotals(exact, cutoff).Of(metric)
       <= WindowTotals(rows, cutoff).Of(metric) + SumRows(exact, FirstHour(cutoff), metric)
  }

  lemma WindowSum(ds: seq<Delivery>, batch: nat -> Answers, single: nat -> Answers, clock: nat -> nat, cutoff: int,
                  metric: Metric)
    requires (forall d <- ds :: GoodDelivery(d)) && Timed(AllSources(ds)) && SinglesSucceed(single)
    ensures WindowClose(Table(ds, batch, single), RowsOf(AllSources(ds), clock), cutoff, metric)
  {
    TableSum(ds, batch, single, Since(cutoff), metric);
    SeparateSum(AllSources(ds), clock, Since(cutoff), metric);
    SeparateSum(AllSources(ds), clock, Since(cutoff + HOUR), metric);
    WindowIsCoarse(cutoff);
    BatchesAtMost(ds, Stored(Since(cutoff)), Stored(Since(cutoff)), metric);
    BatchesAtLeast(ds, Stored(Since(cutoff)), Stored(Since(cutoff + HOUR)), metric);
    WindowSplits(RowsOf(AllSources(ds), clock), cutoff, metric);
  }

  /**
   At every moment of every run a rolling window of the table is never higher than that of the records behind the
   batches inserted so far, and lower by at most the tokens of its first hour. After a drained run these are the
   accepted records.
   */
  lemma WindowsAreClose(events: seq<Event>, last: World, capacity: nat, done: nat,
                        batch: nat -> Answers, single: nat -> Answers, clock: nat -> nat, cutoff: int, metric: Metric)
    requires Runs(START, events, last, capacity) && Timed(last.accepted) && done <= |last.deliveries|
    requires SinglesSucceed(single)
    ensures forall d <- last.deliveries :: GoodDelivery(d)
    ensures var inserted := last.deliveries[..done];
            WindowClose(Table(inserted, batch, single), RowsOf(AllSources(inserted), clock), cutoff, metric)
    ensures last.worker == Exited ==>
              WindowClose(Table(last.deliveries, batch, single), RowsOf(last.accepted, clock), cutoff, metric)
  {
    DeliveredOfRun(events, last, capacity, done);
    DeliveredOfRun(events, last, capacity, |last.deliveries|);
    assert last.deliveries[..|last.deliveries|] == last.deliveries;
    WindowSum(last.deliveries[..done], batch, single, clock, cutoff, metric);
    if last.worker == Exited {
      WindowSum(last.deliveries, batch, single, clock, cutoff, metric);
      DrainedSum(events, last, capacity, clock, Since(cutoff), metric);
      DrainedSum(events, last, capacity, clock, FirstHour(cutoff), metric);
    }
  }

  lemma WindowIsCoarse(cutoff: int)
    ensures StoredImpliesRecorded(Stored(Since(cutoff)), Stored(Since(cutoff)))
    ensures RecordedImpliesStored(Stored(Since(cutoff)), Stored(Since(cutoff + HOUR)))
  {
    forall r: UsageRecord, t: Totals | r.createdAt.At?
      ensures Stored(Since(cutoff))(AsBucket(r, t)) ==> Stored(Since(cutoff))(r)
      ensures Stored(Since(cutoff + HOUR))(r) ==> Stored(Since(cutoff))(AsBucket(r, t))
    {
      HourBounds(r.createdAt.unix);
      var row, bucket := RowOf(r, 0), RowOf(AsBucket(r, t), 0);
      assert Since(cutoff)(bucket) ==> Since(cutoff)(row);
      assert Since(cutoff + HOUR)(row) ==> Since(cutoff)(bucket);
    }
    forall r: UsageRecord | Stored(Since(cutoff + HOUR))(r)
      ensures Stored(Since(cutoff))(r)
    {
      assert Since(cutoff + HOUR)(RowOf(r, 0)) ==> Since(cutoff)(RowOf(r, 0));
    }
  }
}
