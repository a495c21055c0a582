/** The refresher (worker_refresher.go): repeatedly takes up to ten items
    that are due for another sync, puts them on the refresh queue and hides
    each one for five minutes so the next batches do not take it again. */
module Refresher {
  import opened Common
  import opened ItemStore
  import opened Channels

  /** The result of one batch: go again at once, or wait for the next tick. */
  datatype SyncStatus = Work | Sleep

  /** `nextAvailableTime := now + 5 minutes`. */
  const HIDE_FOR: nat := 5 * MINUTE

  /** What one batch runs into: the clock, whether `getNextItemsToEnqueue`
      returns an error, whether iterating its rows fails (which it does not
      report), whether preparing the UPDATE fails, and the ids whose UPDATE fails. */
  datatype BatchOracle = BatchOracle(now: Time, queryFails: bool, iterationFails: bool, prepareFails: bool,
                                     markFails: set<nat>)

  /** The table after the UPDATE loop over `ids`: every id whose statement
      succeeds gets `_visible_at = until`, in list order. */
  function HideAll(t: Table, ids: seq<nat>, until: Time, markFails: set<nat>): Table
    decreases |ids|
  {
    if ids == [] then t
    else
      var r := HideAll(t, ids[..|ids| - 1], until, markFails);
      var x := ids[|ids| - 1];
      if x in markFails then r else MarkedInvisible(r, x, until)
  }

  /** The UPDATE loop touches only `_visible_at`, only of listed ids whose
      statement succeeded, and sets it to `until` there; an id whose statement
      failed, or that is not listed, keeps its row. */
  lemma {:induction false} HideAllEffect(t: Table, ids: seq<nat>, until: Time, markFails: set<nat>, x: nat)
    ensures var r := HideAll(t, ids, until, markFails);
      && r.Keys == t.Keys
      && (x in t && x in ids && x !in markFails ==> r[x] == t[x].(visibleAt := until))
      && (x in t && (x !in ids || x in markFails) ==> r[x] == t[x])
    decreases |ids|
  {
    if ids != [] {
      var init := ids[..|ids| - 1];
      HideAllEffect(t, init, until, markFails, x);
      MarkChangesOnlyVisibility(HideAll(t, init, until, markFails), ids[|ids| - 1], until);
      assert ids == init + [ids[|ids| - 1]];
      assert x in ids <==> x in init || x == ids[|ids| - 1];
    }
  }

  /** Hiding never changes what the syncer's need-sync check answers. */
  lemma {:induction false} HideAllKeepsNeedSync(t: Table, ids: seq<nat>, until: Time, markFails: set<nat>, x: nat, now: Time)
    ensures NeedSync(HideAll(t, ids, until, markFails), x, now) == NeedSync(t, x, now)
    decreases |ids|
  {
    if ids != [] {
      HideAllKeepsNeedSync(t, ids[..|ids| - 1], until, markFails, x, now);
      MarkKeepsNeedSync(HideAll(t, ids[..|ids| - 1], until, markFails), ids[|ids| - 1], until, x, now);
    }
  }

  /** A hidden id is not due again before the five minutes are over, so the
      next batches do not enqueue it a second time in the meantime. */
  lemma HiddenNotDue(t: Table, ids: seq<nat>, now: Time, markFails: set<nat>, x: nat, later: Time)
    requires x in t && x in ids && x !in markFails && later < now + HIDE_FOR
    ensures x in HideAll(t, ids, now + HIDE_FOR, markFails)
    ensures !IsDue(HideAll(t, ids, now + HIDE_FOR, markFails)[x], later)
  {
    HideAllEffect(t, ids, now + HIDE_FOR, markFails, x);
  }

  /** What one batch promises, run on table `t` under oracle `o`: the ids it
      enqueued, its answer and the table it leaves. At most 10 distinct ids,
      each stored and due at `o.now`; all the due ids when fewer than 10
      came back and the row iteration did not fail; none after a failing
      query or prepare. The answer is `Sleep`
      exactly after a failure or an empty list. The new table is `t` with
      every listed id whose UPDATE succeeded hidden until `now + 5 min`. */
  predicate BatchStep(t: Table, o: BatchOracle, ids: seq<nat>, status: SyncStatus, t': Table)
  {
    && |ids| <= DUE_LIMIT && Distinct(ids)
    && (forall i :: 0 <= i < |ids| ==> ids[i] in t && IsDue(t[ids[i]], o.now))
    && (!o.queryFails && !o.iterationFails && !o.prepareFails && |ids| < DUE_LIMIT ==>
          forall k :: k in t && IsDue(t[k], o.now) ==> k in ids)
    && (o.queryFails || o.prepareFails ==> ids == [])
    && (status == Sleep <==> o.queryFails || o.prepareFails || ids == [])
    && t' == HideAll(t, ids, o.now + HIDE_FOR, o.markFails)
  }

  /** `runEnqueueExistingItemsBatch`. A failing query or a failing prepare
      answers `Sleep` and changes nothing. Otherwise every id of the due list
      is sent to the refresh queue, in list order, and then hidden until
      `now + 5 min`; a failing UPDATE skips only that id's hiding. */
  method EnqueueExistingItemsBatch(queue: Channel, store: Store, o: BatchOracle)
    returns (status: SyncStatus, ghost ids: seq<nat>)
    requires !queue.closed
    modifies queue, store
    ensures !queue.closed
    ensures queue.buffer == old(queue.buffer) + ids
    ensures BatchStep(old(store.rows), o, ids, status, store.rows)
  {
    if o.queryFails {
      AppendEmpty(queue.buffer);
      return Sleep, [];
    }
    var itemIds := store.NextItemsToEnqueue(o.now, o.iterationFails);
    if o.prepareFails {
      AppendEmpty(queue.buffer);
      return Sleep, [];
    }
    var until := o.now + HIDE_FOR;
    var i := 0;
    while i < |itemIds|
      invariant 0 <= i <= |itemIds|
      invariant !queue.closed
      invariant queue.buffer == old(queue.buffer) + itemIds[..i]
      invariant store.rows == HideAll(old(store.rows), itemIds[..i], until, o.markFails)
    {
      var itemId := itemIds[i];
      queue.Send(itemId);
      if itemId !in o.markFails {
        store.MarkInvisible(itemId, until);
      }
      assert itemIds[..i + 1][..i] == itemIds[..i];
      i := i + 1;
    }
    assert itemIds[..i] == itemIds;
    ids := itemIds;
    status := if |itemIds| == 0 then Sleep else Work;
  }

  /** Because the iteration error goes unreported, a batch may come back
      empty and answer `Sleep` while a due row is waiting: the table holding
      one due row, an iteration that fails at once, and nothing enqueued
      satisfy the batch's contract. */
  lemma IterationFailureHidesDueRows(r: Row, now: Time)
    requires IsDue(r, now)
    ensures var t, o := map[1 := r], BatchOracle(now, false, true, false, {});
      && 1 in t && IsDue(t[1], now)
      && BatchStep(t, o, [], Sleep, t)
  {
  }

  /** The number of `Sleep` answers in `statuses`. */
  function Sleeps(statuses: seq<SyncStatus>): nat
  {
    if statuses == [] then 0
    else Sleeps(statuses[..|statuses| - 1]) + (if statuses[|statuses| - 1] == Sleep then 1 else 0)
  }

  /** The ids of the batches, one batch after the other. */
  function Flatten(perBatch: seq<seq<nat>>): seq<nat>
  {
    if perBatch == [] then []
    else Flatten(perBatch[..|perBatch| - 1]) + perBatch[|perBatch| - 1]
  }

  /** A run of `|statuses|` batches: the k-th batch, under `batches[k]`,
      starts on `tables[k]`, enqueues `perBatch[k]`, answers `statuses[k]`
      and leaves `tables[k + 1]`. */
  predicate RefreshRun(batches: seq<BatchOracle>, perBatch: seq<seq<nat>>, statuses: seq<SyncStatus>, tables: seq<Table>)
  {
    && |statuses| <= |batches| && |perBatch| == |statuses| && |tables| == |statuses| + 1
    && forall k :: 0 <= k < |statuses| ==>
         BatchStep(tables[k], batches[k], perBatch[k], statuses[k], tables[k + 1])
  }

  /** Extending a run by one more batch. */
  lemma RunSnoc(batches: seq<BatchOracle>, perBatch: seq<seq<nat>>, statuses: seq<SyncStatus>, tables: seq<Table>,
                ids: seq<nat>, status: SyncStatus, t': Table)
    requires RefreshRun(batches, perBatch, statuses, tables) && |statuses| < |batches|
    requires BatchStep(tables[|statuses|], batches[|statuses|], ids, status, t')
    ensures RefreshRun(batches, perBatch + [ids], statuses + [status], tables + [t'])
    ensures Flatten(perBatch + [ids]) == Flatten(perBatch) + ids
  {
    assert (perBatch + [ids])[..|perBatch|] == perBatch;
  }

  /** The refresher never adds or removes a row: every table of a run has
      the keys of the first one. */
  lemma {:induction false} RunKeepsKeys(batches: seq<BatchOracle>, perBatch: seq<seq<nat>>, statuses: seq<SyncStatus>,
                                        tables: seq<Table>, k: nat)
    requires RefreshRun(batches, perBatch, statuses, tables) && k < |tables|
    ensures tables[k].Keys == tables[0].Keys
  {
    if k > 0 {
      RunKeepsKeys(batches, perBatch, statuses, tables, k - 1);
      HideAllEffect(tables[k - 1], perBatch[k - 1], batches[k - 1].now + HIDE_FOR, batches[k - 1].markFails, 0);
    }
  }

  /** An id a batch enqueued and hid is not enqueued again by the next batch
      when that batch runs within the five minutes. */
  lemma HiddenNotReenqueued(batches: seq<BatchOracle>, perBatch: seq<seq<nat>>, statuses: seq<SyncStatus>,
                            tables: seq<Table>, k: nat, x: nat)
    requires RefreshRun(batches, perBatch, statuses, tables) && k + 1 < |statuses|
    requires x in perBatch[k] && x !in batches[k].markFails
    requires batches[k + 1].now < batches[k].now + HIDE_FOR
    ensures x !in perBatch[k + 1]
  {
    var o, o' := batches[k], batches[k + 1];
    assert BatchStep(tables[k], o, perBatch[k], statuses[k], tables[k + 1]);
    assert BatchStep(tables[k + 1], o', perBatch[k + 1], statuses[k + 1], tables[k + 2]);
    var i :| 0 <= i < |perBatch[k]| && perBatch[k][i] == x;
    HiddenNotDue(tables[k], perBatch[k], o.now, o.markFails, x, o'.now);
    var next := perBatch[k + 1];
    forall j | 0 <= j < |next|
      ensures next[j] != x
    {
    }
  }

  /** `refresher`, run for at most `|batches|` batches. After a `Sleep` answer
      it waits for the next tick, and it returns as soon as it observes
      cancellation, during that wait or in the check after each batch. It
      waits exactly once per `Sleep` answer and never after `Work`; unless
      cancelled it runs every batch. The batches it ran form a run from the
      store's table to its final table, and the refresh queue receives the
      ids of those batches, in order. */
  method Refresh(queue: Channel, ctx: Context, store: Store, batches: seq<BatchOracle>)
    returns (cancelled: bool, statuses: seq<SyncStatus>, waits: nat,
             ghost perBatch: seq<seq<nat>>, ghost tables: seq<Table>)
    requires !queue.closed
    modifies queue, ctx, store
    ensures !queue.closed
    ensures cancelled ==> ctx.cancelled
    ensures !cancelled ==> |statuses| == |batches|
    ensures waits == Sleeps(statuses)
    ensures RefreshRun(batches, perBatch, statuses, tables)
    ensures tables[0] == old(store.rows) && store.rows == tables[|statuses|]
    ensures queue.buffer == old(queue.buffer) + Flatten(perBatch)
  {
    statuses := [];
    waits := 0;
    perBatch := [];
    tables := [store.rows];
    AppendEmpty(old(queue.buffer));
    var k := 0;
    while k < |batches|
      invariant 0 <= k <= |batches| && |statuses| == k
      invariant !queue.closed
      invariant waits == Sleeps(statuses)
      invariant RefreshRun(batches, perBatch, statuses, tables)
      invariant tables[0] == old(store.rows) && store.rows == tables[k]
      invariant queue.buffer == old(queue.buffer) + Flatten(perBatch)
    {
      var status, ids := EnqueueExistingItemsBatch(queue, store, batches[k]);
      RunSnoc(batches, perBatch, statuses, tables, ids, status, store.rows);
      AppendAssoc(old(queue.buffer), Flatten(perBatch), ids);
      perBatch := perBatch + [ids];
      tables := tables + [store.rows];
      ghost var earlier := statuses;
      statuses := statuses + [status];
      assert statuses[..|statuses| - 1] == earlier;
      if status == Sleep {
        waits := waits + 1;
        var done := ctx.Done();
        if done {
          return true, statuses, waits, perBatch, tables;
        }
      }
      var done := ctx.Done();
      if done {
        return true, statuses, waits, perBatch, tables;
      }
      k := k + 1;
    }
    cancelled := false;
  }
}
