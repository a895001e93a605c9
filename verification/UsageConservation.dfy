/**
 Every run of the sink and its worker: whatever calls are interleaved, no accepted token count is
 lost or counted twice, and what coalescing costs the dashboard is bounded.
 */
module UsageConservation {
  import opened UsageLedger
  import opened UsageSink

  /** A record whose tokens were merged into the bucket of `key`. */
  datatype Spill = Spill(key: Key, rec: UsageRecord)

  /** What one TakeBatch removed: the queue, and the buckets with the records they stand for. */
  datatype Delivery = Delivery(
    queued: seq<UsageRecord>, overflow: map<Key, UsageRecord>, order: seq<Key>, spilled: seq<Spill>)

  datatype Worker = Waiting | Inserting | Exited

  /** The sink with its history. */
  datatype World = World(
    sink: Sink, accepted: seq<UsageRecord>, spilled: seq<Spill>, deliveries: seq<Delivery>,
    worker: Worker, takesAfterStop: nat)

  const START := World(EMPTY, [], [], [], Waiting, 0)

  datatype Event =
    | RecordCall(rec: UsageRecord, now: nat)
    | StopCall
    | Take(order: seq<Key>)
    | InsertDone
    | Exit

  ghost predicate Enabled(w: World, e: Event)
  {
    match e
    case RecordCall(_, _) => true
    case StopCall => true
    case Take(order) => w.worker == Waiting && Pending(w.sink) && IsOrder(order, w.sink.overflow)
    case InsertDone => w.worker == Inserting
    case Exit => w.worker == Waiting && !Pending(w.sink) && w.sink.stopped
  }

  ghost function Apply(w: World, e: Event, capacity: nat): World
    requires Enabled(w, e)
  {
    match e
    case RecordCall(rec, now) =>
      (match RecordIn(w.sink, capacity, rec, now)
       case Err(_) => w
       case Ok(sink) =>
         w.(sink := sink, accepted := w.accepted + [rec],
            spilled := if |w.sink.queued| < capacity then w.spilled
                       else w.spilled + [Spill(OverflowBucket(rec, now), rec)]))
    case StopCall => w.(sink := w.sink.(stopped := true))
    case Take(order) =>
      w.(sink := EMPTY.(stopped := w.sink.stopped), spilled := [], worker := Inserting,
         deliveries := w.deliveries + [Delivery(w.sink.queued, w.sink.overflow, order, w.spilled)],
         takesAfterStop := if w.sink.stopped then w.takesAfterStop + 1 else w.takesAfterStop)
    case InsertDone => w.(worker := Waiting)
    case Exit => w.(worker := Exited)
  }

  ghost predicate Runs(w: World, events: seq<Event>, last: World, capacity: nat)
    decreases events
  {
    if events == [] then w == last
    else Enabled(w, events[0]) && Runs(Apply(w, events[0], capacity), events[1..], last, capacity)
  }

  // ---------------------------------------------------------------- what a bucket stands for

  function Records(spilled: seq<Spill>): (r: seq<UsageRecord>)
    ensures |r| == |spilled|
  {
    seq(|spilled|, i requires 0 <= i < |spilled| => spilled[i].rec)
  }

  function SpillSum(spilled: seq<Spill>, key: Key, metric: Metric): nat
  {
    if spilled == [] then 0
    else
      var last := spilled[|spilled| - 1];
      SpillSum(spilled[..|spilled| - 1], key, metric) + if last.key == key then last.rec.tokens.Of(metric) else 0
  }

  lemma SpillSumMore(spilled: seq<Spill>, s: Spill, key: Key, metric: Metric)
    ensures SpillSum(spilled + [s], key, metric)
         == SpillSum(spilled, key, metric) + if s.key == key then s.rec.tokens.Of(metric) else 0
  {
    assert (spilled + [s])[..|spilled|] == spilled;
  }

  /** The record belongs to the bucket: same request dimensions and, when it carries a time, same hour. */
  predicate Belongs(rec: UsageRecord, key: Key)
  {
    && rec.accountKey == key.accountKey && rec.tokenID == key.tokenID && rec.path == key.path
    && rec.statusCode == key.statusCode && rec.isStream == key.isStream
    && (rec.createdAt.At? ==> HourOf(rec.createdAt.unix) == key.bucketUnix)
  }

  /** Each bucket maps back to its own key and holds exactly the tokens of the records spilled to it. */
  ghost predicate Coalesces(overflow: map<Key, UsageRecord>, spilled: seq<Spill>)
  {
    && (forall i :: 0 <= i < |spilled| ==> spilled[i].key in overflow && Belongs(spilled[i].rec, spilled[i].key))
    && (forall k :: k in overflow ==> Belongs(overflow[k], k) && overflow[k].createdAt == At(k.bucketUnix))
    && (forall k, metric :: k in overflow ==> overflow[k].tokens.Of(metric) == SpillSum(spilled, k, metric))
  }

  ghost predicate GoodDelivery(d: Delivery)
  {
    IsOrder(d.order, d.overflow) && Coalesces(d.overflow, d.spilled)
  }

  /** The batch the database layer is given. */
  ghost function Batch(d: Delivery): seq<UsageRecord>
    requires GoodDelivery(d)
  {
    d.queued + Values(d.overflow, d.order)
  }

  /** The accepted records the batch stands for. */
  function Sources(d: Delivery): seq<UsageRecord>
  {
    d.queued + Records(d.spilled)
  }

  ghost function Batches(ds: seq<Delivery>): seq<UsageRecord>
    requires forall d <- ds :: GoodDelivery(d)
  {
    if ds == [] then [] else Batches(ds[..|ds| - 1]) + Batch(ds[|ds| - 1])
  }

  function AllSources(ds: seq<Delivery>): seq<UsageRecord>
  {
    if ds == [] then [] else AllSources(ds[..|ds| - 1]) + Sources(ds[|ds| - 1])
  }

  // ---------------------------------------------------------------- the invariant of every run

  ghost predicate Inv(w: World, capacity: nat)
  {
    && |w.sink.queued| <= capacity && |w.sink.overflow| <= capacity
    && Coalesces(w.sink.overflow, w.spilled)
    && (forall d <- w.deliveries :: GoodDelivery(d))
    && multiset(w.accepted)
       == multiset(w.sink.queued) + multiset(Records(w.spilled)) + multiset(AllSources(w.deliveries))
    && (w.takesAfterStop > 0 ==> w.takesAfterStop == 1 && w.sink.stopped && !Pending(w.sink))
    && (w.worker == Exited ==> w.sink.stopped && !Pending(w.sink) && w.spilled == [])
    && (w.sink.overflow.Keys == {} ==> w.spilled == [])
  }

  lemma RecordKeepsCoalescing(s: Sink, capacity: nat, rec: UsageRecord, now: nat, spilled: seq<Spill>)
    requires Coalesces(s.overflow, spilled) && |s.queued| >= capacity
    requires RecordIn(s, capacity, rec, now).Ok?
    requires s.overflow.Keys == {} ==> spilled == []
    ensures Coalesces(RecordIn(s, capacity, rec, now).value.overflow, spilled + [Spill(OverflowBucket(rec, now), rec)])
  {
    var key := OverflowBucket(rec, now);
    var after := RecordIn(s, capacity, rec, now).value.overflow;
    var more := spilled + [Spill(key, rec)];
    HourIsItsOwnHour(match rec.createdAt case At(unix) => unix case Unset => now);
    forall k, metric | k in after
      ensures after[k].tokens.Of(metric) == SpillSum(more, k, metric)
    {
      SpillSumMore(spilled, Spill(key, rec), k, metric);
      if k !in s.overflow {
        NoSpillNoSum(spilled, k, metric);
      }
    }
    assert forall i :: 0 <= i < |spilled| ==> more[i] == spilled[i];
  }

  lemma HourIsItsOwnHour(unix: nat)
    ensures HourOf(HourOf(unix)) == HourOf(unix)
  {
  }

  lemma {:induction false} NoSpillNoSum(spilled: seq<Spill>, key: Key, metric: Metric)
    requires forall i :: 0 <= i < |spilled| ==> spilled[i].key != key
    ensures SpillSum(spilled, key, metric) == 0
  {
    if spilled != [] {
      NoSpillNoSum(spilled[..|spilled| - 1], key, metric);
    }
  }

  lemma StepKeepsInv(w: World, e: Event, capacity: nat)
    requires Inv(w, capacity) && Enabled(w, e)
    ensures Inv(Apply(w, e, capacity), capacity)
  {
    var after := Apply(w, e, capacity);
    match e
    case RecordCall(rec, now) =>
      RecordKeepsInv(w, rec, now, capacity);
    case Take(order) =>
      TakeKeepsInv(w, order, capacity);
    case _ =>
  }

  lemma RecordKeepsInv(w: World, rec: UsageRecord, now: nat, capacity: nat)
    requires Inv(w, capacity)
    ensures Inv(Apply(w, RecordCall(rec, now), capacity), capacity)
  {
    if RecordIn(w.sink, capacity, rec, now).Ok? && |w.sink.queued| >= capacity {
      RecordKeepsCoalescing(w.sink, capacity, rec, now, w.spilled);
      var s := Spill(OverflowBucket(rec, now), rec);
      assert Records(w.spilled + [s]) == Records(w.spilled) + [rec];
    }
  }

  lemma SourcesMore(ds: seq<Delivery>, d: Delivery)
    ensures AllSources(ds + [d]) == AllSources(ds) + Sources(d)
    ensures multiset(AllSources(ds + [d]))
         == multiset(AllSources(ds)) + multiset(d.queued) + multiset(Records(d.spilled))
  {
    assert (ds + [d])[..|ds|] == ds;
  }

  lemma TakeKeepsInv(w: World, order: seq<Key>, capacity: nat)
    requires Inv(w, capacity) && Enabled(w, Take(order))
    ensures Inv(Apply(w, Take(order), capacity), capacity)
  {
    var after := Apply(w, Take(order), capacity);
    var d := Delivery(w.sink.queued, w.sink.overflow, order, w.spilled);
    SourcesMore(w.deliveries, d);
    assert Records([]) == [];
    assert Coalesces(map[], []);
  }

  lemma {:induction false} RunKeepsInv(w: World, events: seq<Event>, last: World, capacity: nat)
    requires Inv(w, capacity) && Runs(w, events, last, capacity)
    ensures Inv(last, capacity)
    decreases events
  {
    if events != [] {
      StepKeepsInv(w, events[0], capacity);
      RunKeepsInv(Apply(w, events[0], capacity), events[1..], last, capacity);
    }
  }

  lemma StartInv(capacity: nat)
    ensures Inv(START, capacity)
  {
    assert Records([]) == [];
  }

  // ---------------------------------------------------------------- the worker drains and stops

  /** An upper bound on the worker's remaining steps. */
  function Remaining(w: World): nat
  {
    (if Pending(w.sink) then 2 else 0)
    + (if w.worker == Inserting then 1 else 0) + (if w.worker == Exited then 0 else 1)
  }

  predicate IsWorkerStep(e: Event)
  {
    e.Take? || e.InsertDone? || e.Exit?
  }

  /** After Stop each worker step brings it closer to its exit, and calls from outside set it back by nothing. */
  lemma StoppedWorkerDrains(w: World, e: Event, capacity: nat)
    requires w.sink.stopped && Enabled(w, e)
    ensures var after := Apply(w, e, capacity);
            && after.sink.stopped
            && (if IsWorkerStep(e) then Remaining(after) < Remaining(w) else Remaining(after) == Remaining(w))
  {
  }

  /** A stopped worker that has not exited always has a step to take. */
  lemma StoppedWorkerIsNeverStuck(w: World, capacity: nat) returns (e: Event)
    requires Inv(w, capacity) && w.sink.stopped && w.worker != Exited
    ensures Enabled(w, e) && IsWorkerStep(e)
  {
    if w.worker == Inserting {
      e := InsertDone;
    } else if Pending(w.sink) {
      var order := SomeOrder(w.sink.overflow, w.sink.overflow.Keys);
      e := Take(order);
    } else {
      e := Exit;
    }
  }

  lemma SomeOrder(overflow: map<Key, UsageRecord>, keys: set<Key>) returns (order: seq<Key>)
    ensures forall i, j :: 0 <= i < j < |order| ==> order[i] != order[j]
    ensures forall k :: k in order <==> k in keys
    decreases keys
  {
    if keys == {} {
      order := [];
    } else {
      var k :| k in keys;
      var rest := SomeOrder(overflow, keys - {k});
      order := rest + [k];
    }
  }
}
