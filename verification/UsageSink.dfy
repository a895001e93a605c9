/**
 The bounded queue between request handlers and the database worker. When the queue is full a record
 is merged into an hourly bucket; a worker takes everything at once and hands it to the database.
 */
module UsageSink {
  import opened Prelude
  import opened UsageLedger

  datatype Key = Key(
    accountKey: string, tokenID: string, path: string, statusCode: int, isStream: bool, bucketUnix: nat)

  datatype SinkError = SinkStopped | SinkFull

  function HourOf(unix: nat): nat
  {
    unix / HOUR * HOUR
  }

  function OverflowBucket(rec: UsageRecord, now: nat): Key
  {
    Key(rec.accountKey, rec.tokenID, rec.path, rec.statusCode, rec.isStream,
        HourOf(match rec.createdAt case At(unix) => unix case Unset => now))
  }

  /** The bucket is that of the record's account, token, path, status, stream flag and UTC hour. */
  predicate SameBucket(key: Key, rec: UsageRecord, now: nat)
  {
    var unix := if rec.createdAt.At? then rec.createdAt.unix else now;
    && key.accountKey == rec.accountKey && key.tokenID == rec.tokenID && key.path == rec.path
    && key.statusCode == rec.statusCode && key.isStream == rec.isStream
    && key.bucketUnix % 3600 == 0 && key.bucketUnix <= unix < key.bucketUnix + 3600
  }

  lemma BucketIsUnique(key: Key, rec: UsageRecord, now: nat)
    ensures SameBucket(key, rec, now) <==> key == OverflowBucket(rec, now)
  {
  }

  function MergeRecord(base: UsageRecord, next: UsageRecord, bucketUnix: nat): UsageRecord
  {
    base.(tokens := Plus(base.tokens, next.tokens), createdAt := At(bucketUnix))
  }

  // ---------------------------------------------------------------- the sink as a value

  datatype Sink = Sink(queued: seq<UsageRecord>, overflow: map<Key, UsageRecord>, stopped: bool)

  const EMPTY := Sink([], map[], false)

  /** What Record does; an error leaves the sink as it was. */
  function RecordIn(s: Sink, capacity: nat, rec: UsageRecord, now: nat): Result<Sink, SinkError>
  {
    if s.stopped then Err(SinkStopped)
    else if |s.queued| < capacity then Ok(s.(queued := s.queued + [rec]))
    else
      var key := OverflowBucket(rec, now);
      if key in s.overflow then
        Ok(s.(overflow := s.overflow[key := MergeRecord(s.overflow[key], rec, key.bucketUnix)]))
      else if |s.overflow| >= capacity then Err(SinkFull)
      else Ok(s.(overflow := s.overflow[key := rec.(createdAt := At(key.bucketUnix))]))
  }

  predicate Pending(s: Sink)
  {
    s.queued != [] || s.overflow.Keys != {}
  }

  /** The keys of the overflow in some order, each once. */
  ghost predicate IsOrder(order: seq<Key>, overflow: map<Key, UsageRecord>)
  {
    && (forall i, j :: 0 <= i < j < |order| ==> order[i] != order[j])
    && (forall k :: k in order <==> k in overflow)
  }

  function Values(overflow: map<Key, UsageRecord>, order: seq<Key>): (r: seq<UsageRecord>)
    requires forall k <- order :: k in overflow
    ensures |r| == |order|
  {
    seq(|order|, i requires 0 <= i < |order| => overflow[order[i]])
  }

  /** The tokens a bucket holds, nothing if there is no bucket. */
  function BucketTokens(overflow: map<Key, UsageRecord>, key: Key, metric: Metric): nat
  {
    if key in overflow then overflow[key].tokens.Of(metric) else 0
  }

  /** The record is in a bucket: its tokens are added to the one of its kind, and no other bucket changes. */
  ghost predicate Spilled(before: map<Key, UsageRecord>, after: map<Key, UsageRecord>, rec: UsageRecord, now: nat)
  {
    exists key :: SameBucket(key, rec, now) && after.Keys == before.Keys + {key}
      && (forall other :: other in before && other != key ==> after[other] == before[other])
      && after[key].createdAt == At(key.bucketUnix)
      && forall metric :: after[key].tokens.Of(metric) == BucketTokens(before, key, metric) + rec.tokens.Of(metric)
  }

  /** The buckets are at capacity and none is that of the record. */
  ghost predicate NoBucketTakes(overflow: map<Key, UsageRecord>, capacity: nat, rec: UsageRecord, now: nat)
  {
    |overflow| >= capacity && forall key :: key in overflow ==> !SameBucket(key, rec, now)
  }

  lemma TakenExactly(overflow: map<Key, UsageRecord>, capacity: nat, rec: UsageRecord, now: nat)
    ensures NoBucketTakes(overflow, capacity, rec, now) <==>
              OverflowBucket(rec, now) !in overflow && |overflow| >= capacity
  {
    forall key | key in overflow
      ensures SameBucket(key, rec, now) <==> key == OverflowBucket(rec, now)
    {
      BucketIsUnique(key, rec, now);
    }
  }

  /** A record is lost exactly when the sink is stopped, or the queue is full and no bucket takes the record. */
  lemma RefusedExactly(s: Sink, capacity: nat, rec: UsageRecord, now: nat)
    ensures RecordIn(s, capacity, rec, now).Err? <==>
              s.stopped || (|s.queued| >= capacity && NoBucketTakes(s.overflow, capacity, rec, now))
    ensures RecordIn(s, capacity, rec, now) == Err(SinkStopped) <==> s.stopped
  {
    TakenExactly(s.overflow, capacity, rec, now);
  }

  /** One bucket more, or more tokens in one. */
  lemma SpillsInto(before: map<Key, UsageRecord>, bucket: UsageRecord, rec: UsageRecord, now: nat)
    requires var key := OverflowBucket(rec, now);
             && bucket.createdAt == At(key.bucketUnix)
             && forall metric :: bucket.tokens.Of(metric) == BucketTokens(before, key, metric) + rec.tokens.Of(metric)
    ensures Spilled(before, before[OverflowBucket(rec, now) := bucket], rec, now)
  {
    var key := OverflowBucket(rec, now);
    BucketIsUnique(key, rec, now);
    assert before[key := bucket].Keys == before.Keys + {key};
  }

  // ---------------------------------------------------------------- the sink object

  class UsageSink {
    const capacity: nat
    var queued: seq<UsageRecord>
    var overflow: map<Key, UsageRecord>
    var stopped: bool

    constructor (queueSize: int)
      ensures capacity == (if queueSize <= 0 then 512 else queueSize) && Abs() == EMPTY
    {
      capacity := if queueSize <= 0 then 512 else queueSize;
      queued, overflow, stopped := [], map[], false;
    }

    function Abs(): Sink
      reads this
    {
      Sink(queued, overflow, stopped)
    }

    method Stop()
      modifies this`stopped
      ensures stopped
    {
      stopped := true;
    }

    method Record(rec: UsageRecord, now: nat) returns (error: Option<SinkError>)
      modifies this`queued, this`overflow
      ensures match RecordIn(old(Abs()), capacity, rec, now)
              case Ok(s) => error == None && Abs() == s
              case Err(e) => error == Some(e) && Abs() == old(Abs())
      ensures error == Some(SinkStopped) <==> stopped
      ensures error == Some(SinkFull) <==>
                !stopped && |old(queued)| >= capacity && NoBucketTakes(old(overflow), capacity, rec, now)
      ensures error.Some? ==> Abs() == old(Abs())
      ensures error == None && |old(queued)| < capacity ==>
                queued == old(queued) + [rec] && overflow == old(overflow)
      ensures error == None && |old(queued)| >= capacity ==>
                queued == old(queued) && Spilled(old(overflow), overflow, rec, now)
    {
      if stopped {
        return Some(SinkStopped);
      }
      if |queued| < capacity {
        queued := queued + [rec];
        return None;
      }
      error := QueueOverflow(rec, now);
    }

    method QueueOverflow(rec: UsageRecord, now: nat) returns (error: Option<SinkError>)
      requires !stopped && |queued| >= capacity
      modifies this`overflow
      ensures match RecordIn(old(Abs()), capacity, rec, now)
              case Ok(s) => error == None && Abs() == s
              case Err(e) => error == Some(e) && Abs() == old(Abs())
      ensures error == None || error == Some(SinkFull)
      ensures error == Some(SinkFull) <==> NoBucketTakes(old(overflow), capacity, rec, now)
      ensures if error == None then Spilled(old(overflow), overflow, rec, now) else overflow == old(overflow)
    {
      var key := OverflowBucket(rec, now);
      TakenExactly(overflow, capacity, rec, now);
      if key in overflow {
        SpillsInto(overflow, MergeRecord(overflow[key], rec, key.bucketUnix), rec, now);
        overflow := overflow[key := MergeRecord(overflow[key], rec, key.bucketUnix)];
        return None;
      }
      if |overflow| >= capacity {
        return Some(SinkFull);
      }
      SpillsInto(overflow, rec.(createdAt := At(key.bucketUnix)), rec, now);
      overflow := overflow[key := rec.(createdAt := At(key.bucketUnix))];
      error := None;
    }

    /** One turn of the worker, at a moment when it does not have to wait. */
    method TakeBatch() returns (batch: seq<UsageRecord>, ok: bool, ghost order: seq<Key>)
      requires Pending(Abs()) || stopped
      modifies this`queued, this`overflow
      ensures ok == old(Pending(Abs()))
      ensures ok ==> IsOrder(order, old(overflow)) && batch == old(queued) + Values(old(overflow), order)
      ensures Abs() == EMPTY.(stopped := stopped)
    {
      if |queued| == 0 && overflow.Keys == {} && stopped {
        assert overflow == map[];
        return [], false, [];
      }
      batch := queued;
      order := [];
      var left := overflow.Keys;
      while left != {}
        invariant left <= overflow.Keys
        invariant forall k :: k in order <==> k in overflow && k !in left
        invariant forall i, j :: 0 <= i < j < |order| ==> order[i] != order[j]
        invariant batch == queued + Values(overflow, order)
        decreases left
      {
        var key :| key in left;
        batch := batch + [overflow[key]];
        assert Values(overflow, order + [key]) == Values(overflow, order) + [overflow[key]];
        order := order + [key];
        left := left - {key};
      }
      queued, overflow := [], map[];
      ok := true;
    }
  }

  /** The worker's insert of a batch: one transaction, and singly if that fails. */
  method InsertUsageBatch(db: UsageDB, records: seq<UsageRecord>, batch: Answers, single: Answers)
    modifies db
    ensures db.rows == old(db.rows) + Inserted(records, batch, single)
  {
    if |records| == 0 {
      return;
    }
    if |records| == 1 {
      var inserted := db.InsertUsage(records[0], single.ok(0), single.clock(0));
      assert StoredSingly(records, 0, single) == [];
      return;
    }
    var committed := db.InsertUsageBatch(records, batch);
    if committed {
      return;
    }
    for i := 0 to |records|
      invariant db.rows == old(db.rows) + StoredSingly(records, i, single)
    {
      var inserted := db.InsertUsage(records[i], single.ok(i), single.clock(i));
    }
  }

  function Inserted(records: seq<UsageRecord>, batch: Answers, single: Answers): seq<Row>
  {
    if |records| > 1 && batch.commitOk && forall i: nat :: i < |records| ==> batch.ok(i) then
      RowsOf(records, batch.clock)
    else StoredSingly(records, |records|, single)
  }

  /** The positions below n at which a single insert succeeds, in order. */
  function Kept(n: nat, answers: Answers): seq<nat>
  {
    if n == 0 then [] else Kept(n - 1, answers) + if answers.ok(n - 1) then [n - 1] else []
  }

  lemma {:induction false} KeptIsExact(n: nat, answers: Answers)
    ensures forall j :: 0 <= j < |Kept(n, answers)| ==> Kept(n, answers)[j] < n
    ensures forall i, j :: 0 <= i < j < |Kept(n, answers)| ==> Kept(n, answers)[i] < Kept(n, answers)[j]
    ensures forall i: nat :: i in Kept(n, answers) <==> i < n && answers.ok(i)
  {
    if n > 0 {
      KeptIsExact(n - 1, answers);
    }
  }

  /**
   Whatever fails, a record is stored at most once, and exactly where the single insert succeeds: the
   j-th row comes from position kept[j], and these positions ascend and are those that succeed.
   */
  lemma {:induction false} StoredAtMostOnce(records: seq<UsageRecord>, n: nat, answers: Answers)
    requires n <= |records|
    ensures var kept := Kept(n, answers);
            var stored := StoredSingly(records, n, answers);
            && |stored| == |kept|
            && (forall i, j :: 0 <= i < j < |kept| ==> kept[i] < kept[j])
            && (forall i: nat :: i in kept <==> i < n && answers.ok(i))
            && forall j :: 0 <= j < |kept| ==>
                 kept[j] < n && stored[j] == RowOf(records[kept[j]], answers.clock(kept[j]))
  {
    KeptIsExact(n, answers);
    if n > 0 {
      StoredAtMostOnce(records, n - 1, answers);
    }
  }

  lemma OneRowMore(records: seq<UsageRecord>, n: nat, answers: Answers)
    requires 0 < n <= |records|
    ensures RowsOf(records[..n], answers.clock)
         == RowsOf(records[..n - 1], answers.clock) + [RowOf(records[n - 1], answers.clock(n - 1))]
  {
  }

  /** With single inserts that succeed, a batch is stored completely however the transaction went. */
  lemma {:induction false} StoredExactlyOnce(records: seq<UsageRecord>, n: nat, answers: Answers)
    requires n <= |records| && forall i: nat :: i < n ==> answers.ok(i)
    ensures StoredSingly(records, n, answers) == RowsOf(records[..n], answers.clock)
  {
    if n > 0 {
      StoredExactlyOnce(records, n - 1, answers);
      OneRowMore(records, n, answers);
    }
  }

  /** However the transaction went, each record of the batch becomes exactly one row, in order. */
  lemma BatchStoredOnce(records: seq<UsageRecord>, batch: Answers, single: Answers)
    requires forall i: nat :: i < |records| ==> single.ok(i)
    ensures |Inserted(records, batch, single)| == |records|
    ensures forall i :: 0 <= i < |records| ==>
              || Inserted(records, batch, single)[i] == RowOf(records[i], batch.clock(i))
              || Inserted(records, batch, single)[i] == RowOf(records[i], single.clock(i))
  {
    StoredExactlyOnce(records, |records|, single);
    assert records[..|records|] == records;
  }
}
