/** The worker side of the pipeline (worker_syncer.go): the adaptive resync
    interval, the per-task sync decision, and the worker loop that prefers
    the new queue over the refresh queue. */
module Syncer {
  import opened Common
  import opened ItemStore
  import opened Channels

  /** `rand.Intn(14*24)`: the long-tail jitter, in whole hours. */
  type Jitter = j: nat | j < 14 * 24

  /** A duration of `s` whole seconds. */
  function Seconds(s: int): Duration
  {
    s * NANOS_PER_SECOND
  }

  /** `computeNextSyncDuration(now, itemTime)`: the delay until an item of
      the given age is due again. Ages are whole seconds, so the Go
      comparisons of fractional hours with 1, 3, 24 and 168 become
      comparisons of seconds with 3600, 10800, 86400 and 604800. */
  function NextSyncDuration(now: Time, itemTime: int, jitter: Jitter): (d: Duration)
    ensures Seconds(20 * MINUTE) <= d < Seconds(104 * DAY)
  {
    var age := now - itemTime;
    if age < HOUR then Seconds(20 * MINUTE)
    else if age < 3 * HOUR then Seconds(HOUR)
    else if age < 24 * HOUR then Seconds(3 * HOUR)
    else if age < 7 * 24 * HOUR then Seconds(24 * HOUR)
    else Seconds(90 * DAY) + Seconds(jitter * HOUR)
  }

  /** The bucket table: each age band and the interval it maps to; an item
      whose time lies in the future counts as younger than an hour. */
  lemma IntervalBuckets(now: Time, itemTime: int, jitter: Jitter)
    ensures var age, d := now - itemTime, NextSyncDuration(now, itemTime, jitter);
      && (age < 0 ==> d == Seconds(20 * MINUTE))
      && (age < HOUR ==> d == Seconds(20 * MINUTE))
      && (HOUR <= age < 3 * HOUR ==> d == Seconds(HOUR))
      && (3 * HOUR <= age < DAY ==> d == Seconds(3 * HOUR))
      && (DAY <= age < 7 * DAY ==> d == Seconds(DAY))
      && (7 * DAY <= age ==>
            d == Seconds(90 * DAY + jitter * HOUR) && Seconds(90 * DAY) <= d < Seconds(104 * DAY))
  {
  }

  /** For a fixed jitter an older item never gets a shorter interval. */
  lemma IntervalMonotone(now1: Time, time1: int, now2: Time, time2: int, jitter: Jitter)
    requires now1 - time1 <= now2 - time2
    ensures NextSyncDuration(now1, time1, jitter) <= NextSyncDuration(now2, time2, jitter)
  {
  }

  /** Ages of 30 minutes, 2 hours, 10 hours, 3 days and 10 days. */
  lemma IntervalExamples(now: Time, jitter: Jitter)
    requires now >= 10 * DAY
    ensures NextSyncDuration(now, now - 30 * MINUTE, jitter) == Seconds(20 * MINUTE)
    ensures NextSyncDuration(now, now - 2 * HOUR, jitter) == Seconds(HOUR)
    ensures NextSyncDuration(now, now - 10 * HOUR, jitter) == Seconds(3 * HOUR)
    ensures NextSyncDuration(now, now - 3 * DAY, jitter) == Seconds(24 * HOUR)
    ensures Seconds(90 * DAY) <= NextSyncDuration(now, now - 10 * DAY, jitter) < Seconds(104 * DAY)
  {
  }

  /** What the outside world answers while one task is processed. */
  datatype TaskOracle = TaskOracle(
    needSyncFails: bool,       // `itemNeedSync` failed with an error other than "no rows"
    download: Result<string>,  // `downloadItem`
    parsed: Result<int>,       // the `Time` field `json.Unmarshal` reads from the payload
    jitter: Jitter,            // `rand.Intn(14*24)`
    upsertFails: bool)         // `upsertItem` failed, leaving the table as it was

  /** The table and the returned error after `syncItem(id)` at time `now`. */
  function SyncEffect(t: Table, id: nat, now: Time, o: TaskOracle): (r: (Table, Outcome))
    ensures r.1.Failure? ==> r.0 == t
    ensures r.1.Success? ==> !NeedSync(r.0, id, now)
    ensures forall k :: k != id ==> (k in r.0 <==> k in t) && (k in t ==> r.0[k] == t[k])
  {
    if o.needSyncFails then (t, Failure(StoreError))
    else if !NeedSync(t, id, now) then (t, Success)
    else if o.download.Err? then (t, Failure(o.download.error))
    else if o.parsed.Err? then (t, Failure(o.parsed.error))
    else if o.upsertFails then (t, Failure(StoreError))
    else
      var d := NextSyncDuration(now, o.parsed.value, o.jitter);
      UpsertClearsNeedSync(t, id, o.download.value, d, now);
      (Upserted(t, id, o.download.value, d, now), Success)
  }

  /** A task whose item is already fresh is dropped without a download or a write. */
  lemma SyncSkipsFreshItem(t: Table, id: nat, now: Time, o: TaskOracle)
    requires !o.needSyncFails && !NeedSync(t, id, now)
    ensures SyncEffect(t, id, now, o) == (t, Success)
  {
  }

  /** The only way a task changes the table: the item needed a sync, its
      download and parse succeeded, and the upsert stores the payload with
      the interval computed from the parsed item time. */
  lemma SyncWritesOnlyOnFullSuccess(t: Table, id: nat, now: Time, o: TaskOracle)
    ensures var r := SyncEffect(t, id, now, o);
      r.0 != t ==>
        && !o.needSyncFails && NeedSync(t, id, now)
        && o.download.Ok? && o.parsed.Ok? && !o.upsertFails
        && r.0 == Upserted(t, id, o.download.value, NextSyncDuration(now, o.parsed.value, o.jitter), now)
    ensures o.download.Err? ==> SyncEffect(t, id, now, o).0 == t
    ensures o.parsed.Err? ==> SyncEffect(t, id, now, o).0 == t
  {
  }

  /** `processingCount`: one of the two atomic throughput counters. */
  class Counter {
    var value: nat

    constructor ()
      ensures value == 0
    {
      value := 0;
    }

    method Add()
      modifies this
      ensures value == old(value) + 1
    {
      value := value + 1;
    }
  }

  /** `syncItem`: count the task, then the early-return checks in order. */
  method SyncItem(id: nat, store: Store, count: Counter, now: Time, o: TaskOracle) returns (r: Outcome)
    modifies store, count
    ensures count.value == old(count.value) + 1
    ensures (store.rows, r) == SyncEffect(old(store.rows), id, now, o)
  {
    count.Add();
    if o.needSyncFails {
      return Failure(StoreError);
    }
    var needSync := NeedSync(store.rows, id, now);
    if !needSync {
      return Success;
    }
    if o.download.Err? {
      return Failure(o.download.error);
    }
    var data := o.download.value;
    if o.parsed.Err? {
      return Failure(o.parsed.error);
    }
    var d := NextSyncDuration(now, o.parsed.value, o.jitter);
    if o.upsertFails {
      return Failure(StoreError);
    }
    store.Upsert(id, data, d, now);
    r := Success;
  }

  /** What one iteration of the worker loop did. */
  datatype Step =
    | SyncedNew(id: nat, outcome: Outcome)
    | SyncedRefresh(id: nat, outcome: Outcome)
    | NewClosed
    | RefreshClosed
    | Idle

  /** The buffered tasks of a channel variable; none for a nil channel. */
  function Pending(c: Channel?): seq<nat>
    reads c
  {
    if c == null then [] else c.buffer
  }

  /** A receive from `c` would not fall through to `default`. */
  predicate Ready(c: Channel?)
    reads c
  {
    c != null && (c.buffer != [] || c.closed)
  }

  /** One iteration of the `syncer` loop: a non-blocking receive on the new
      queue; only when it is not ready, one on the refresh queue; when
      neither is ready, a sleep that changes nothing. A receive that reports
      "closed" sets that channel variable to nil. */
  method SyncerStep(newQ: Channel?, refreshQ: Channel?, store: Store, newCount: Counter,
                    refreshCount: Counter, now: Time, o: TaskOracle)
    returns (newQ': Channel?, refreshQ': Channel?, step: Step)
    requires newQ != null && refreshQ != null ==> newQ != refreshQ
    requires newCount != refreshCount
    modifies newQ, refreshQ, store, newCount, refreshCount
    ensures newQ != null ==> newQ.closed == old(newQ.closed)
    ensures refreshQ != null ==> refreshQ.closed == old(refreshQ.closed)
    ensures old(Pending(newQ)) != [] ==>
      && step.SyncedNew? && step.id == old(Pending(newQ))[0]
      && (store.rows, step.outcome) == SyncEffect(old(store.rows), step.id, now, o)
      && Pending(newQ) == old(Pending(newQ))[1..] && Pending(refreshQ) == old(Pending(refreshQ))
      && newCount.value == old(newCount.value) + 1 && refreshCount.value == old(refreshCount.value)
      && newQ' == newQ && refreshQ' == refreshQ
    ensures old(Pending(newQ)) == [] && old(Ready(newQ)) ==>
      && step == NewClosed && newQ' == null && refreshQ' == refreshQ
      && Pending(newQ) == [] && Pending(refreshQ) == old(Pending(refreshQ))
      && store.rows == old(store.rows)
      && newCount.value == old(newCount.value) && refreshCount.value == old(refreshCount.value)
    ensures !old(Ready(newQ)) && old(Pending(refreshQ)) != [] ==>
      && step.SyncedRefresh? && step.id == old(Pending(refreshQ))[0]
      && (store.rows, step.outcome) == SyncEffect(old(store.rows), step.id, now, o)
      && Pending(refreshQ) == old(Pending(refreshQ))[1..] && Pending(newQ) == []
      && refreshCount.value == old(refreshCount.value) + 1 && newCount.value == old(newCount.value)
      && newQ' == newQ && refreshQ' == refreshQ
    ensures !old(Ready(newQ)) && old(Pending(refreshQ)) == [] && old(Ready(refreshQ)) ==>
      && step == RefreshClosed && refreshQ' == null && newQ' == newQ
      && Pending(newQ) == [] && Pending(refreshQ) == []
      && store.rows == old(store.rows)
      && newCount.value == old(newCount.value) && refreshCount.value == old(refreshCount.value)
    ensures !old(Ready(newQ)) && !old(Ready(refreshQ)) ==>
      && step == Idle && newQ' == newQ && refreshQ' == refreshQ
      && Pending(newQ) == [] && Pending(refreshQ) == []
      && store.rows == old(store.rows)
      && newCount.value == old(newCount.value) && refreshCount.value == old(refreshCount.value)
  {
    newQ', refreshQ' := newQ, refreshQ;
    var fromNew: Received := NotReady;
    if newQ != null {
      fromNew := newQ.TryReceive();
    }
    match fromNew
    case Item(id) =>
      var outcome := SyncItem(id, store, newCount, now, o);
      step := SyncedNew(id, outcome);
    case ClosedEmpty =>
      newQ' := null;
      step := NewClosed;
    case NotReady =>
      var fromRefresh: Received := NotReady;
      if refreshQ != null {
        fromRefresh := refreshQ.TryReceive();
      }
      match fromRefresh
      case Item(id) =>
        var outcome := SyncItem(id, store, refreshCount, now, o);
        step := SyncedRefresh(id, outcome);
      case ClosedEmpty =>
        refreshQ' := null;
        step := RefreshClosed;
      case NotReady =>
        step := Idle;
  }

  /** The table after syncing `ids` in order, the i-th task answered by `oracle(k + i)`. */
  function SyncAll(t: Table, ids: seq<nat>, now: Time, oracle: nat -> TaskOracle, k: nat): Table
    decreases |ids|
  {
    if ids == [] then t
    else SyncAll(SyncEffect(t, ids[0], now, oracle(k)).0, ids[1..], now, oracle, k + 1)
  }

  lemma {:induction false} SyncAllSnoc(t: Table, ids: seq<nat>, x: nat, now: Time, oracle: nat -> TaskOracle, k: nat)
    ensures SyncAll(t, ids + [x], now, oracle, k)
         == SyncEffect(SyncAll(t, ids, now, oracle, k), x, now, oracle(k + |ids|)).0
    decreases |ids|
  {
    if ids != [] {
      assert (ids + [x])[1..] == ids[1..] + [x];
      SyncAllSnoc(SyncEffect(t, ids[0], now, oracle(k)).0, ids[1..], x, now, oracle, k + 1);
    }
  }

  /** Syncing a list of tasks touches only the rows of the ids in the list. */
  lemma {:induction false} SyncAllFrame(t: Table, ids: seq<nat>, now: Time, oracle: nat -> TaskOracle, k: nat, x: nat)
    requires x !in ids
    ensures var r := SyncAll(t, ids, now, oracle, k);
      (x in r <==> x in t) && (x in t ==> r[x] == t[x])
    decreases |ids|
  {
    if ids != [] {
      SyncAllFrame(SyncEffect(t, ids[0], now, oracle(k)).0, ids[1..], now, oracle, k + 1, x);
    }
  }

  /** A task whose download, parse and upsert all succeed, for an item that
      is less than an hour old at `now`. */
  predicate YoungSuccess(o: TaskOracle, now: Time)
  {
    !o.needSyncFails && o.download.Ok? && o.parsed.Ok? && now - o.parsed.value < HOUR && !o.upsertFails
  }

  /** A row that needs no sync keeps its value through any list of tasks. */
  lemma {:induction false} SyncAllKeepsFresh(t: Table, ids: seq<nat>, now: Time, oracle: nat -> TaskOracle, k: nat, x: nat)
    requires x in t && !NeedSync(t, x, now)
    ensures x in SyncAll(t, ids, now, oracle, k) && SyncAll(t, ids, now, oracle, k)[x] == t[x]
    decreases |ids|
  {
    if ids != [] {
      SyncAllKeepsFresh(SyncEffect(t, ids[0], now, oracle(k)).0, ids[1..], now, oracle, k + 1, x);
    }
  }

  /** When every task succeeds on a young item, each listed id that needed a
      sync ends with a row synced at `now` and due again 20 minutes later. */
  lemma {:induction false} SyncAllYoung(t: Table, ids: seq<nat>, now: Time, oracle: nat -> TaskOracle, k: nat, x: nat)
    requires forall i: nat :: k <= i ==> YoungSuccess(oracle(i), now)
    requires x in ids && NeedSync(t, x, now)
    ensures var r := SyncAll(t, ids, now, oracle, k);
      x in r && r[x].lastSyncedAt == now && r[x].nextSyncAt == now + 20 * MINUTE
    decreases |ids|
  {
    var t' := SyncEffect(t, ids[0], now, oracle(k)).0;
    assert YoungSuccess(oracle(k), now);
    if ids[0] == x {
      IntervalBuckets(now, oracle(k).parsed.value, oracle(k).jitter);
      assert t'[x].nextSyncAt == now + 20 * MINUTE;
      SyncAllKeepsFresh(t', ids[1..], now, oracle, k + 1, x);
    } else {
      assert x in ids[1..];
      SyncAllYoung(t', ids[1..], now, oracle, k + 1, x);
    }
  }

  /** The worker loop after `close(newQueue)` and `close(refreshQueue)`: it
      processes every buffered new task, then every buffered refresh task,
      sets both channel variables to nil and exits. The i-th task processed
      is answered by `oracle(i)`. */
  method Syncer(newQ: Channel?, refreshQ: Channel?, store: Store, newCount: Counter,
                refreshCount: Counter, now: Time, oracle: nat -> TaskOracle)
    returns (processed: seq<nat>)
    requires newQ != null ==> newQ.closed
    requires refreshQ != null ==> refreshQ.closed
    requires newQ != null && refreshQ != null ==> newQ != refreshQ
    requires newCount != refreshCount
    modifies newQ, refreshQ, store, newCount, refreshCount
    ensures processed == old(Pending(newQ)) + old(Pending(refreshQ))
    ensures newQ != null ==> newQ.closed
    ensures refreshQ != null ==> refreshQ.closed
    ensures Pending(newQ) == [] && Pending(refreshQ) == []
    ensures newCount.value == old(newCount.value) + |old(Pending(newQ))|
    ensures refreshCount.value == old(refreshCount.value) + |old(Pending(refreshQ))|
    ensures store.rows == SyncAll(old(store.rows), processed, now, oracle, 0)
  {
    var nq, rq := newQ, refreshQ;
    processed := [];
    ghost var newTasks, refreshTasks := Pending(newQ), Pending(refreshQ);
    ghost var rows0 := store.rows;
    while nq != null || rq != null
      invariant nq == null || nq == newQ
      invariant rq == null || rq == refreshQ
      invariant newQ != null ==> newQ.closed
      invariant refreshQ != null ==> refreshQ.closed
      invariant nq == null ==> Pending(newQ) == []
      invariant rq == null ==> Pending(refreshQ) == []
      invariant nq != null ==> processed + Pending(nq) == newTasks && Pending(rq) == refreshTasks
      invariant nq != null ==>
                  newCount.value == old(newCount.value) + |processed| && refreshCount.value == old(refreshCount.value)
      invariant nq == null ==> processed + Pending(rq) == newTasks + refreshTasks
      invariant nq == null ==>
                  newCount.value == old(newCount.value) + |newTasks|
                  && refreshCount.value == old(refreshCount.value) + |processed| - |newTasks|
      invariant store.rows == SyncAll(rows0, processed, now, oracle, 0)
      decreases (if nq == null then 0 else |Pending(nq)| + 1) + (if rq == null then 0 else |Pending(rq)| + 1)
    {
      ghost var pn, pr := Pending(nq), Pending(rq);
      var step;
      nq, rq, step := SyncerStep(nq, rq, store, newCount, refreshCount, now, oracle(|processed|));
      if step.SyncedNew? {
        ConsumeHead(processed, pn, newTasks);
      } else if step.SyncedRefresh? {
        ConsumeHead(processed, pr, newTasks + refreshTasks);
      } else if step == NewClosed {
        AppendEmpty(processed);
      }
      if step.SyncedNew? || step.SyncedRefresh? {
        SyncAllSnoc(rows0, processed, step.id, now, oracle, 0);
        processed := processed + [step.id];
      }
    }
  }
}
