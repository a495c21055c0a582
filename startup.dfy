/** The start-up wiring of main.go: the bound that splits the id space
    between the backfill (below it) and the discoverer (above it). */
module Startup {
  import opened Common
  import opened ItemStore
  import opened Backfill
  import opened Discoverer
  import opened Channels
  import opened Syncer

  const TWO_TO_64: int := 0x1_0000_0000_0000_0000

  /** Go's `uint64`. */
  type U64 = x: int | 0 <= x < TWO_TO_64

  /** How far below the persisted maximum the backfill starts. */
  const BACKFILL_WINDOW: U64 := 1000

  /** `uint64` subtraction, which wraps around below zero. */
  function Sub64(a: U64, b: U64): (r: U64)
    ensures b <= a ==> r == a - b
    ensures a < b ==> r == a - b + TWO_TO_64
  {
    (a - b) % TWO_TO_64
  }

  function Min64(a: U64, b: U64): U64
  {
    if a <= b then a else b
  }

  function Max64(a: U64, b: U64): U64
  {
    if a <= b then b else a
  }

  /** `startingId := max(0, maxItemInDb - min(maxItemInDb, 1_000))`: the
      subtraction never wraps, the result never exceeds the persisted
      maximum, and it is 0 for a maximum of at most 1000 and the maximum less
      1000 otherwise. */
  function StartingId(maxItemInDb: U64): (s: U64)
    ensures s <= maxItemInDb
    ensures maxItemInDb <= 1000 ==> s == 0
    ensures maxItemInDb > 1000 ==> s == maxItemInDb - 1000
  {
    Max64(0, Sub64(maxItemInDb, Min64(maxItemInDb, BACKFILL_WINDOW)))
  }

  /** The `min` is what keeps the subtraction from wrapping: without it a
      maximum of 5 would give an enormous bound. The `max(0, _)` changes nothing. */
  lemma WithoutMinWraps()
    ensures Sub64(5, BACKFILL_WINDOW) == TWO_TO_64 - 995
    ensures forall x: U64 :: Max64(0, x) == x
  {
  }

  /** The bound for a store, as main.go computes it from `getMaxItemID`. */
  function StartBound(t: Table): nat
    requires MaxItemId(t) < TWO_TO_64
  {
    StartingId(MaxItemId(t))
  }

  /** The hand-off: with the same bound given to both producers, the
      backfill emits only ids below it and the discoverer, as long as the
      remote maximum never drops below the bound, only ids above it, so no
      id is enqueued by both. */
  lemma HandOffDisjoint(t: Table, s: nat, polls: seq<Result<nat>>)
    requires forall p :: p in polls && p.Ok? ==> s <= p.value
    ensures forall x :: x in BackfillGaps(t, s) ==> x < s
    ensures forall x :: x in Discovered(s, polls) ==> s < x
    ensures forall x :: !(x in BackfillGaps(t, s) && x in Discovered(s, polls))
  {
    BackfillGapsShape(t, s);
    DiscoveredAbove(s, polls, s);
  }

  /** What the producers miss as written: persisted ids {1, 2, 5, 9, 1012}
      give the bound 12; the backfill stops at 9 and the discoverer starts
      above 12, so id 10, which has no row, is never enqueued by either. */
  lemma HandOffMissesTail(t: Table, polls: seq<Result<nat>>)
    requires t.Keys == {1, 2, 5, 9, 1012}
    requires forall p :: p in polls && p.Ok? ==> 12 <= p.value
    ensures MaxItemId(t) == 1012 && StartBound(t) == 12
    ensures 10 !in t
    ensures 10 !in BackfillGaps(t, StartBound(t)) && 10 !in Discovered(StartBound(t), polls)
  {
    assert 1012 in t;
    BackfillOmitsTail(t);
    DiscoveredAbove(12, polls, 12);
  }

  /** With the corrected backfill, the two producers together cover every id
      without a row up to the last remote maximum, as long as that maximum
      never goes down. */
  lemma CorrectedHandOffCovers(t: Table, s: nat, polls: seq<Result<nat>>, x: nat)
    requires NonDecreasing(s, polls)
    requires 0 < x <= FinalMax(s, polls) && x !in t
    ensures x in CompleteGaps(t, s) || x in Discovered(s, polls)
  {
    CompleteGapsMembership(t, s, x);
    NonDecreasingRun(s, polls);
    RangeMembership(s + 1, FinalMax(s, polls) + 1, x);
  }

  /** The first run of the pipeline: an empty store and a remote maximum of 5. The
      discoverer's first cycle enqueues 1 .. 5; once the syncer has processed
      them, each item less than an hour old, the store holds exactly those
      five rows, each synced at `now` and due again 20 minutes later. */
  lemma FirstRunExample(now: Time, oracle: nat -> TaskOracle)
    requires forall i: nat :: YoungSuccess(oracle(i), now)
    ensures var r := SyncAll(map[], Discovered(0, [Ok(5)]), now, oracle, 0);
      && (forall x :: x in r <==> 1 <= x <= 5)
      && (forall x :: x in r ==> r[x].lastSyncedAt == now && r[x].nextSyncAt == now + 20 * MINUTE)
  {
    var ids := Discovered(0, [Ok(5)]);
    OneCycle(0, Ok(5));
    var r := SyncAll(map[], ids, now, oracle, 0);
    forall x: nat
      ensures (x in r <==> 1 <= x <= 5)
      ensures x in r ==> r[x].lastSyncedAt == now && r[x].nextSyncAt == now + 20 * MINUTE
    {
      RangeMembership(1, 6, x);
      if 1 <= x <= 5 {
        SyncAllYoung(map[], ids, now, oracle, 0, x);
      } else {
        SyncAllFrame(map[], ids, now, oracle, 0, x);
      }
    }
  }

  /** The end of main.go: once every producer has returned, both queues are
      closed and the workers drain them. With one worker, every task still
      buffered is processed, new tasks first, each on its own counter, and
      applied to the table in that order. */
  method Shutdown(newQueue: Channel, refreshQueue: Channel, store: Store, newCount: Counter,
                  refreshCount: Counter, now: Time, oracle: nat -> TaskOracle)
    returns (processed: seq<nat>)
    requires newQueue != refreshQueue && newCount != refreshCount
    requires !newQueue.closed && !refreshQueue.closed
    modifies newQueue, refreshQueue, store, newCount, refreshCount
    ensures newQueue.closed && refreshQueue.closed
    ensures newQueue.buffer == [] && refreshQueue.buffer == []
    ensures processed == old(newQueue.buffer) + old(refreshQueue.buffer)
    ensures newCount.value == old(newCount.value) + |old(newQueue.buffer)|
    ensures refreshCount.value == old(refreshCount.value) + |old(refreshQueue.buffer)|
    ensures store.rows == SyncAll(old(store.rows), processed, now, oracle, 0)
  {
    newQueue.Close();
    refreshQueue.Close();
    processed := Syncer.Syncer(newQueue, refreshQueue, store, newCount, refreshCount, now, oracle);
  }
}
