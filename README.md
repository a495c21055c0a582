# hnsyncer ingestion pipeline, modelled in Dafny

hnsyncer keeps a local SQLite archive of the Hacker News items. Items are
numbered 1, 2, 3, … by the remote API. Three producers put item ids on two
queues:

- the **backfill verifier** scans the ids already stored, up to a bound fixed
  at start-up, and enqueues every id missing between two stored ids on the
  *new* queue;
- the **discoverer** polls the remote maximum id and enqueues every id above
  the previous maximum on the *new* queue;
- the **refresher** takes up to ten stored items that are due for another
  fetch, enqueues them on the *refresh* queue and hides them for five minutes.

A pool of **syncer** workers takes tasks from the new queue first and from
the refresh queue only when the new queue has nothing ready. A worker skips
an item that is not yet due. Otherwise it downloads the item, parses its
creation time and upserts it. The next sync is scheduled by an age-based
interval: 20 minutes, 1 hour, 3 hours, 1 day, or 90 days plus up to 14 days of
jitter.

The model has one module per core source file, plus two shared modules
(`Common` and `Channels`):

- `Common` (`common.dfy`): time units, results and integer ranges.
- `ItemStore` (`item_store.dfy`): the `hn_items` table as a `map` held by a
  `Store` class. The queries are functions of the map and an explicit `now`.
  The two writes are methods.
- `Channels` (`channels.dfy`): a queue is a class with a `seq` buffer and a
  `closed` flag. The cancellation context is a class whose `Done` check may
  observe a cancel signal at any time. `SendRange` is the send loop that the
  two id producers share.
- `Syncer` (`syncer.dfy`): the interval function, `syncItem` as a method
  proved against the specification function `SyncEffect`, the worker loop
  iteration `SyncerStep`, and the drain loop `Syncer`.
- `Backfill` (`backfill.dfy`): the three nested loops of `backillVerifier`.
  They are proved against the unbatched gap sequence `BackfillGaps`.
- `Discoverer` (`discoverer.dfy`): the polling loop, proved against
  `Discovered`.
- `Refresher` (`refresher.dfy`): the batch and the work/sleep loop, proved
  against a run of batch steps, `RefreshRun`.
- `Startup` (`startup.dfy`): the `uint64` computation of the start bound,
  its hand-off to the backfill and the discoverer, the closing of the queues
  at shutdown, and the first run of the pipeline end to end.

The outside world is passed in as parameters (oracles):

- the clock, as `now`;
- the HTTP answers and parse results, as `Result` values;
- the random jitter;
- whether each SQL statement fails, and whether iterating the rows of the
  due query fails (its error is never checked, so the loop just ends);
- when cancellation arrives, through the `Done` check.

## Model

| member | source | states |
|---|---|---|
| ItemStore.MaxItemId | db_access.go:22-26 | 0 on an empty table, otherwise a stored id at least as large as every stored id |
| ItemStore.NeedSync | db_access.go:58-78 | an id needs a sync when it has no row, or when its `next_sync_at` is at or before `now`; `_visible_at` plays no part |
| ItemStore.IsDue | db_access.go:34-37 | the WHERE clause of the due query: `next_sync_at <= now` and `visible_at <= now` |
| ItemStore.PersistedSpec | db_access.go:80-91 | the ascending scan of (lo, hi] is strictly ascending and holds exactly the stored ids in that range |
| ItemStore.PersistedCons | db_access.go:87-91 | dropping the first id of a scan leaves the scan that starts after that id |
| ItemStore.SelectItemsStartingAtId | db_access.go:80-97 | at most `limit` ids, strictly ascending, stored, in (start, upper], and the smallest such ids: a stored id left out means the page is full and below it. The page is a prefix of the full scan, and a short page is the whole rest |
| ItemStore.Store.NextItemsToEnqueue | db_access.go:28-56 | at most 10 distinct ids, each stored with `next_sync_at <= now` and `visible_at <= now`; fewer than 10 means every due id is returned, unless iterating the rows failed, which `rows.Err()` never reports and which may end the list after any row |
| ItemStore.Upserted | db_access.go:99-133 | the table after the upsert statement: the id's row becomes (data, created, now, now + whole seconds of d, 0), where `created` is the old `created_at` when the row existed and `now` otherwise; other rows stay |
| ItemStore.MarkedInvisible | db_access.go:13-15 | the table after `UPDATE hn_items SET _visible_at = ? WHERE id = ?`: only that row's `_visible_at` changes, and nothing when there is no such row |
| ItemStore.Store.Upsert | db_access.go:99-133 | the new table is `Upserted(old, …)`: the row gets payload, `last_synced_at = now`, `next_sync_at = now + whole seconds of d`, visible 0, and keeps `created_at` when the row existed |
| ItemStore.Store.MarkInvisible | db_access.go:13-15 | the new table is the old one with only `_visible_at` of the named row set |
| ItemStore.UpsertInsertsNewRow | db_access.go:99-117 | a new id gets the row (data, now, now, now + secs, 0), one key is added, and every other row is unchanged |
| ItemStore.UpsertUpdatesExistingRow | db_access.go:118-122 | an existing id keeps `created_at`, gets new data and sync times and visible 0, and no other row or key changes |
| ItemStore.UpsertClearsNeedSync | db_access.go:58-78 | after an upsert with an interval of at least one second, at the same `now` the item needs no sync and is not due for refresh |
| ItemStore.UpsertTwice | db_access.go:110-122 | upserting twice keeps the first `created_at`; the second write decides the sync times |
| ItemStore.MarkChangesOnlyVisibility | db_access.go:13-15 | marking changes only `_visible_at` of the named row, and nothing when that row is absent |
| ItemStore.MarkKeepsNeedSync | db_access.go:58-78 | `itemNeedSync` ignores `_visible_at`, so marking never changes its answer |
| ItemStore.MarkedNotDueBeforeUntil | db_access.go:34-37 | a row marked until `u` is not due for refresh at any time before `u` |
| ItemStore.DueBoundary | db_access.go:34-37 | in any table, a visible row is due at `next_sync_at = now` and not when `next_sync_at = now + 1`; a due row needs a sync |
| Channels.Channel.Send | worker_discoverer.go:37 | a send appends the task to the end of the buffer and leaves the queue open |
| Channels.Channel.Close | main.go:120-121 | `close` marks the queue closed and keeps its buffered tasks |
| Channels.SendRange | worker_discoverer.go:32-39 | checking cancellation before each send, it sends exactly `lo .. hi-1` in order unless cancelled; if cancelled, it has sent a prefix of that range |
| Channels.Channel.TryReceive | worker_syncer.go:98-116 | a select with a default branch: the head task if one is buffered, "closed" once the queue is closed and drained, otherwise not ready |
| Syncer.NextSyncDuration | worker_syncer.go:25-42 | every interval lies in [20 minutes, 104 days) |
| Syncer.IntervalBuckets | worker_syncer.go:28-41 | the bucket table: under 1h (and negative ages) 20 min, under 3h 1h, under 24h 3h, under 168h 24h, else 90 days + jitter hours, within [90, 104) days |
| Syncer.IntervalMonotone | worker_syncer.go:28-41 | for a fixed jitter, an older item never gets a shorter interval |
| Syncer.IntervalExamples | worker_syncer.go:28-41 | the five bands at ages of 30 min, 2 h, 10 h, 3 days and 10 days |
| Syncer.SyncEffect | worker_syncer.go:65-92 | a failure leaves the table unchanged, a success leaves the item not needing a sync, and no other row is touched |
| Syncer.SyncSkipsFreshItem | worker_syncer.go:68-75 | an item that needs no sync is dropped with success and no write |
| Syncer.SyncWritesOnlyOnFullSuccess | worker_syncer.go:77-91 | the table changes only if need-sync, download, parse and upsert all succeed, and then the item is upserted with the interval of its parsed time; a download or parse failure writes nothing |
| Syncer.Counter.Add | worker_syncer.go:66 | `processingCount.Add(1)` raises the counter by exactly one |
| Syncer.SyncItem | worker_syncer.go:65-92 | the counter goes up by one first, and the new table and the returned error are `SyncEffect` of the old table |
| Syncer.SyncerStep | worker_syncer.go:97-116 | a buffered new task is processed first; a closed, drained new queue becomes nil; only when the new queue is not ready is a refresh task processed or a closed refresh queue set to nil; with neither ready, nothing changes |
| Syncer.SyncAllFrame | worker_syncer.go:97-117 | processing a list of tasks touches only the rows of the ids in the list |
| Syncer.SyncAllKeepsFresh | worker_syncer.go:68-75 | a row that needs no sync comes out of any list of tasks unchanged, whatever the oracles answer |
| Syncer.SyncAllYoung | worker_syncer.go:65-92 | when every task succeeds on an item under an hour old, each listed id that needed a sync ends synced at `now` and due again 20 minutes later |
| Syncer.Syncer | worker_syncer.go:94-118 | once both queues are closed, the loop processes every buffered new task, then every refresh task, in order. It counts each on its own counter and leaves the table as the tasks applied in that order |
| Backfill.GapsAscending | worker_backfill_verifier.go:67-76 | the gaps between the ids of a strictly ascending chain are strictly ascending, lie between the chain's bounds and avoid the chain |
| Backfill.GapsMembership | worker_backfill_verifier.go:67-76 | an id is a gap exactly when it lies above the start, below the chain's last id, and not on the chain |
| Backfill.BackfillGapsMembership | worker_backfill_verifier.go:67-76 | the scan emits an id exactly when it is positive, has no row, and some stored id above it is at most the bound |
| Backfill.BackfillGapsShape | worker_backfill_verifier.go:67-76 | the scan's output is strictly ascending and so has no repeats; every emitted id lies in (0, bound) and has no row |
| Backfill.BackfillExample | worker_backfill_verifier.go:67-76 | stored {1, 2, 5, 9} with bound 9 emits exactly 3, 4, 6, 7, 8 |
| Backfill.BackfillOmitsTail | worker_backfill_verifier.go:84-86 | stored {1, 2, 5, 9} with bound 12 emits only 3, 4, 6, 7, 8: id 10 has no row and is not emitted |
| Backfill.CompleteGapsMembership | worker_backfill_verifier.go:84-86 | the corrected scan emits an id exactly when it lies in [1, bound] and has no row |
| Backfill.GapsAppend | worker_backfill_verifier.go:57-77 | scanning two pieces one after the other emits what scanning their concatenation emits |
| Backfill.PersistedResume | worker_backfill_verifier.go:53-76 | a page followed by the scan that restarts after the page's last id is the whole scan: paging neither skips nor repeats |
| Backfill.BatchedScan | worker_backfill_verifier.go:46-87 | the batched scan emits the unbatched gap sequence: what was sent, plus a page's gaps, plus the gaps of the resumed scan, is the whole |
| Backfill.ScanEndIsLast | worker_backfill_verifier.go:84-86 | when a page comes back empty, the cursor stands on the largest stored id at most the bound (or on 0) |
| Backfill.ScanPage | worker_backfill_verifier.go:57-78 | the row loop sends exactly the gaps of the page and leaves the cursor on its last id; if cancelled, it has sent a prefix of them |
| Backfill.BackfillVerifier | worker_backfill_verifier.go:28-87 | unless cancelled, it sends exactly `BackfillGaps(store, bound)` and ends on the last stored id; if cancelled, it has sent a prefix of that sequence |
| Backfill.CompleteBackfill | worker_backfill_verifier.go:84-87 | corrected backfill: unless cancelled, it sends the gaps and then the tail (last stored id, bound]; if cancelled, a prefix of that |
| Discoverer.FetchMaxItem | worker_discoverer.go:52-69 | on success `maxItem` takes the decoded value; on any error it keeps the value it had |
| Discoverer.OneCycle | worker_discoverer.go:26-41 | one cycle emits `prevMaxItem+1 .. maxItem` and leaves `prevMaxItem = maxItem` |
| Discoverer.OneCycleShape | worker_discoverer.go:32-39 | a cycle's ids are strictly ascending and are exactly the ids in (prevMaxItem, maxItem] |
| Discoverer.FetchErrorEmitsNothing | worker_discoverer.go:26-28 | a failed fetch keeps `maxItem`: its cycle emits nothing and changes nothing for later cycles |
| Discoverer.LowerMaxEmitsNothing | worker_discoverer.go:32-41 | a fetched maximum at or below `prevMaxItem` emits nothing, and `prevMaxItem` still drops to it |
| Discoverer.NonDecreasingRun | worker_discoverer.go:25-49 | while the remote maximum never goes down, all cycles together emit exactly `start+1 .. last maximum` |
| Discoverer.NonDecreasingNoRepeats | worker_discoverer.go:25-49 | while the remote maximum never goes down, no id is emitted twice |
| Discoverer.DiscoveredAbove | worker_discoverer.go:25-49 | if no remote answer is below a floor at or under the start, every emitted id is above the floor |
| Discoverer.FirstCycleExample | worker_discoverer.go:26-39 | from 0 with remote maximum 5, the first cycle emits 1, 2, 3, 4, 5 |
| Discoverer.RegressionRepeatsExample | worker_discoverer.go:32-41 | remote answers 3, 1, 3 from 0 emit 1, 2, 3, 2, 3: a maximum that goes down makes ids go out again |
| Discoverer.DiscoverCycle | worker_discoverer.go:26-39 | the fetch sets `maxItem` (or keeps it on error), then `prevMaxItem+1 .. maxItem` go out, or a prefix of them on cancellation |
| Discoverer.Discover | worker_discoverer.go:21-49 | unless cancelled, it emits exactly `Discovered(start, polls)` and ends with `prevMaxItem` at the last maximum; if cancelled, a prefix of that |
| Refresher.HideAllEffect | worker_refresher.go:34-43 | the UPDATE loop sets `_visible_at` of each listed id whose statement succeeds and leaves every other row and every key as it was |
| Refresher.HideAllKeepsNeedSync | worker_refresher.go:34-43 | hiding never changes the syncer's need-sync answer |
| Refresher.HiddenNotDue | worker_refresher.go:32-37 | a hidden id is not due again until five minutes after the batch |
| Refresher.EnqueueExistingItemsBatch | worker_refresher.go:18-50 | the queue receives the batch's ids in order, and `BatchStep` holds of the old and new table: a failing query or prepare enqueues nothing and answers Sleep; otherwise at most 10 distinct due ids (all of them when fewer than 10 come back and the row iteration did not fail), hidden until now + 5 min unless their UPDATE fails; Sleep exactly after a failure or an empty list |
| Refresher.IterationFailureHidesDueRows | db_access.go:47-55 | with an unreported iteration failure a batch may enqueue nothing and answer Sleep while a due row is waiting |
| Refresher.Refresh | worker_refresher.go:52-72 | batch k runs on the table batch k-1 left, with `BatchStep` tying its ids, its answer and the next table to it; the first table is the store's, the last is the final one; the queue receives the batches' ids one batch after the other; one wait per Sleep and none after Work; every batch runs unless cancelled |
| Refresher.RunKeepsKeys | worker_refresher.go:52-72 | the refresher never adds or removes a row: every table of a run has the keys of the first |
| Refresher.HiddenNotReenqueued | worker_refresher.go:32-56 | an id a batch enqueued and hid is not enqueued by the next batch when that batch runs within the five minutes |
| Startup.Sub64 | main.go:92 | `uint64` subtraction: exact when it does not go below zero, wrapped by 2^64 when it does |
| Startup.StartingId | main.go:92 | the bound never exceeds the stored maximum; it is 0 when the maximum is at most 1000, and the maximum less 1000 otherwise |
| Startup.WithoutMinWraps | main.go:92 | without the `min`, a maximum of 5 would wrap to 2^64 - 995; the `max(0, _)` changes nothing |
| Startup.HandOffDisjoint | main.go:92-98 | with the same bound for both producers, the backfill emits only ids below it and the discoverer only ids above it (while the remote maximum stays at or above it), so no id goes out from both |
| Startup.HandOffMissesTail | main.go:92-98 | stored {1, 2, 5, 9, 1012} give bound 12, and id 10, which has no row, is emitted by neither producer |
| Startup.FirstRunExample | main.go:92-113 | from an empty store with a remote maximum of 5 and young items, the discoverer enqueues 1 .. 5, and after the syncer the store holds exactly those five rows, each due again 20 minutes after `now` |
| Startup.Shutdown | main.go:118-123 | after the producers return, both queues are closed and one worker drains them: every buffered new task, then every refresh task, processed in that order, each counted on its own counter |
| Startup.CorrectedHandOffCovers | main.go:92-98 | with the corrected backfill and a non-decreasing remote maximum, every id without a row up to the last maximum is emitted by one of the producers |

## Left out

- Concurrency: goroutines, the worker pool, `sync.WaitGroup` and the two-phase shutdown in main.go. Each worker loop is modelled sequentially. Other goroutines are reduced to the states of the queues they leave behind.
- Channel capacity (100, main.go:84-85): a send on a full queue blocks until a worker receives. This needs a concurrent consumer, so the buffer is unbounded in the model.
- Startup.Shutdown: drains with one worker. With several workers, the tasks are split among them and their upserts interleave; that order is not modelled.
- Channels.Context.Done: a `select` between a send and `ctx.Done()` is resolved by checking cancellation first, then sending. The random choice Go makes when both are ready is not modelled.
- Syncer.Syncer: covers only the drain phase after both queues are closed (it requires them closed). Any single iteration on open queues is `Syncer.SyncerStep`. The 10-second idle sleep is a step that changes nothing.
- Refresher.Refresh: between two batches the table changes only through the refresher's own UPDATEs; the upserts of workers running at the same time are not modelled.
- Discoverer.Discover and Refresher.Refresh: they loop forever until cancelled. The model runs one cycle per given oracle and then returns uncancelled.
- Time: the timers, the 10-second waits, and SQLite's text timestamps. Time is whole seconds passed in as `now`; `_visible_at = 0` is below every time.
- Fractional ages: the age in fractional hours (worker_syncer.go:26) is compared in whole seconds. Sub-second ages are not represented.
- HTTP and JSON: `fetchMaxItem`, `downloadItem` and `json.Unmarshal` are given as `Result` values. A JSON `null` for the maximum, which leaves `maxItem` unchanged without an error, has the same effect as an `Err`.
- Randomness: `rand.Intn` is the jitter parameter, in [0, 336) hours.
- SQL mechanics: prepared statements, row scanning and the schema. A statement failing is an oracle flag; so is a failing iteration of the due query's rows, which is the only row-iteration failure that the model treats. The `log.Fatal` paths (a failing `getMaxItemID`, an error during the backfill scan) are not modelled.
- `uint64` wrap: `i++` past 2^64 - 1 in the discoverer loop is not modelled, since ids are unbounded `nat` outside `Startup`.
- Observability: `showProgress`, the backfill's progress-logging goroutine, all logging, the command-line flags and `Config`.

## Findings

| source | as written | input that shows it | evidently intended | confidence | as-written member | corrected member |
|---|---|---|---|---|---|---|
| worker_backfill_verifier.go:84-86 | the scan stops at the first empty page. Ids above the last stored id, up to the bound, are never enqueued, and the discoverer starts above the bound | stored ids {1, 2, 5, 9, 1012}: bound 12; the backfill emits 3, 4, 6, 7, 8 and the discoverer starts at 13, so 10, 11 and 12 are never fetched | after the final empty page, also enqueue (last stored id, bound] | not executed | Backfill.BackfillOmitsTail, Startup.HandOffMissesTail | Backfill.CompleteBackfill, Backfill.CompleteGapsMembership, Startup.CorrectedHandOffCovers |

`Backfill.BackfillVerifier` models the code as written;
`Backfill.CompleteBackfill` models the intended behaviour.
