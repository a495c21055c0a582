/** The `hn_items` table and the statements run against it (db_access.go).
    The table is a map from item id to its row; every query takes the
    current time `now` explicitly instead of reading SQLite's clock. */
module ItemStore {
  import opened Common

  /** One row of `hn_items`: the stored payload and its four timestamps. */
  datatype Row = Row(data: string, createdAt: Time, lastSyncedAt: Time, nextSyncAt: Time, visibleAt: Time)

  type Table = map<nat, Row>

  /** The `_visible_at` an upsert writes: the integer 0, which sorts below every timestamp. */
  const VISIBLE_NOW: Time := 0

  /** The LIMIT of the due-for-refresh query. */
  const DUE_LIMIT: nat := 10

  /** `SELECT COALESCE(MAX(id), 0) FROM hn_items`. */
  function MaxItemId(t: Table): (m: nat)
    ensures t == map[] ==> m == 0
    ensures t != map[] ==> m in t && forall k :: k in t ==> k <= m
  {
    if t == map[] then 0 else MaxOf(t.Keys)
  }

  function MaxOf(s: set<nat>): (m: nat)
    requires s != {}
    ensures m in s && forall k :: k in s ==> k <= m
  {
    MaxExists(s);
    var m :| m in s && forall k :: k in s ==> k <= m; m
  }

  lemma MaxExists(s: set<nat>)
    requires s != {}
    ensures exists m :: m in s && forall k :: k in s ==> k <= m
    decreases |s|
  {
    var x :| x in s;
    if s != {x} {
      MaxExists(s - {x});
      var m :| m in s - {x} && forall k :: k in s - {x} ==> k <= m;
      var top := if x <= m then m else x;
      forall k | k in s
        ensures k <= top
      {
        if k != x {
          assert k in s - {x};
        }
      }
      assert top in s;
    } else {
      assert forall k :: k in s ==> k <= x;
    }
  }

  /** `itemNeedSync`: an id without a row needs a sync; otherwise the row does
      exactly when `_next_sync_at <= now`. `_visible_at` plays no part. */
  predicate NeedSync(t: Table, id: nat, now: Time)
  {
    id !in t || t[id].nextSyncAt <= now
  }

  /** The WHERE clause of `getNextItemsToEnqueue`. */
  predicate IsDue(r: Row, now: Time)
  {
    r.nextSyncAt <= now && r.visibleAt <= now
  }

  /** Reference definition of an ascending range scan: the persisted ids in
      (lo, hi], in ascending order. */
  function Persisted(t: Table, lo: nat, hi: nat): (r: seq<nat>)
    ensures forall i :: 0 <= i < |r| ==> lo < r[i] <= hi
    decreases hi - lo
  {
    if hi <= lo then []
    else if lo + 1 in t then [lo + 1] + Persisted(t, lo + 1, hi)
    else Persisted(t, lo + 1, hi)
  }

  /** The scan is strictly ascending and holds exactly the persisted ids of (lo, hi]. */
  lemma {:induction false} PersistedSpec(t: Table, lo: nat, hi: nat)
    ensures StrictlyAscending(Persisted(t, lo, hi))
    ensures forall i :: 0 <= i < |Persisted(t, lo, hi)| ==> Persisted(t, lo, hi)[i] in t
    ensures forall x :: lo < x <= hi ==> (x in t <==> x in Persisted(t, lo, hi))
    decreases hi - lo
  {
    if lo < hi {
      PersistedSpec(t, lo + 1, hi);
    }
  }

  /** Removing the first id of a non-empty scan leaves the scan that starts
      after that id: paging with `start := last id seen` neither skips nor repeats. */
  lemma {:induction false} PersistedCons(t: Table, lo: nat, hi: nat)
    requires Persisted(t, lo, hi) != []
    ensures Persisted(t, lo, hi)[1..] == Persisted(t, Persisted(t, lo, hi)[0], hi)
    decreases hi - lo
  {
    if lo + 1 !in t {
      PersistedCons(t, lo + 1, hi);
    }
  }

  /** `selectItemsStartingAtId(start, upperBoundItemId, limit)`:
      `id > start AND id <= upper ORDER BY id LIMIT limit`. */
  function SelectItemsStartingAtId(t: Table, start: nat, upper: nat, limit: nat): (r: seq<nat>)
    ensures |r| <= limit
    ensures StrictlyAscending(r)
    ensures forall i :: 0 <= i < |r| ==> start < r[i] <= upper && r[i] in t
    ensures forall k :: start < k <= upper && k in t && k !in r ==>
              |r| == limit && forall i :: 0 <= i < |r| ==> r[i] < k
    ensures r <= Persisted(t, start, upper)
    ensures |r| < limit ==> r == Persisted(t, start, upper)
  {
    var p := Persisted(t, start, upper);
    PersistedSpec(t, start, upper);
    if |p| <= limit then p else p[..limit]
  }

  /** Whole seconds of a non-negative duration, as `int(d.Seconds())`. */
  function WholeSeconds(d: Duration): nat
    requires d >= 0
  {
    d / NANOS_PER_SECOND
  }

  /** The table after `upsertItem(id, data, d)` at time `now`. */
  function Upserted(t: Table, id: nat, data: string, d: Duration, now: Time): Table
    requires d >= 0
  {
    var createdAt := if id in t then t[id].createdAt else now;
    t[id := Row(data, createdAt, now, now + WholeSeconds(d), VISIBLE_NOW)]
  }

  /** The table after `UPDATE hn_items SET _visible_at = until WHERE id = ?`. */
  function MarkedInvisible(t: Table, id: nat, until: Time): Table
  {
    if id in t then t[id := t[id].(visibleAt := until)] else t
  }

  /** The in-memory store: one table, written only through its two statements. */
  class Store {
    var rows: Table

    constructor ()
      ensures rows == map[]
    {
      rows := map[];
    }

    method Upsert(id: nat, data: string, d: Duration, now: Time)
      requires d >= 0
      modifies this
      ensures rows == Upserted(old(rows), id, data, d, now)
    {
      var createdAt := if id in rows then rows[id].createdAt else now;
      rows := rows[id := Row(data, createdAt, now, now + d / NANOS_PER_SECOND, VISIBLE_NOW)];
    }

    method MarkInvisible(id: nat, until: Time)
      modifies this
      ensures rows == MarkedInvisible(old(rows), id, until)
    {
      if id in rows {
        rows := rows[id := rows[id].(visibleAt := until)];
      }
    }

    /** `getNextItemsToEnqueue`: the query has no ORDER BY, so any due rows may
        come back, in any order; LIMIT 10 cuts the list only when more are due.
        The `rows.Next()` loop never consults `rows.Err()`: when iterating the
        result fails (`iterationFails`), the loop may end after any row and the
        ids read so far come back without an error. */
    method NextItemsToEnqueue(now: Time, iterationFails: bool) returns (ids: seq<nat>)
      ensures |ids| <= DUE_LIMIT
      ensures Distinct(ids)
      ensures forall i :: 0 <= i < |ids| ==> ids[i] in rows && IsDue(rows[ids[i]], now)
      ensures !iterationFails && |ids| < DUE_LIMIT ==> forall k :: k in rows && IsDue(rows[k], now) ==> k in ids
    {
      ids := [];
      var pending := set k | k in rows && IsDue(rows[k], now);
      while pending != {} && |ids| < DUE_LIMIT
        invariant |ids| <= DUE_LIMIT
        invariant Distinct(ids)
        invariant forall i :: 0 <= i < |ids| ==> ids[i] in rows && IsDue(rows[ids[i]], now)
        invariant forall k :: k in rows && IsDue(rows[k], now) ==> k in ids || k in pending
        invariant forall k :: k in pending ==> k in rows && IsDue(rows[k], now) && k !in ids
        decreases pending
      {
        if iterationFails {
          var next: bool := *;
          if !next {
            break;
          }
        }
        var k :| k in pending;
        ids := ids + [k];
        pending := pending - {k};
      }
    }
  }

  /** A first upsert inserts a fresh row and leaves every other row alone. */
  lemma UpsertInsertsNewRow(t: Table, id: nat, data: string, d: Duration, now: Time)
    requires d >= 0 && id !in t
    ensures var r := Upserted(t, id, data, d, now);
      && r.Keys == t.Keys + {id}
      && r[id] == Row(data, now, now, now + d / NANOS_PER_SECOND, 0)
      && forall k :: k in t ==> r[k] == t[k]
  {
  }

  /** An upsert of an existing id replaces payload and sync times, keeps
      `_created_at`, and leaves every other row alone. */
  lemma UpsertUpdatesExistingRow(t: Table, id: nat, data: string, d: Duration, now: Time)
    requires d >= 0 && id in t
    ensures var r := Upserted(t, id, data, d, now);
      && r.Keys == t.Keys
      && r[id] == Row(data, t[id].createdAt, now, now + d / NANOS_PER_SECOND, 0)
      && forall k :: k in t && k != id ==> r[k] == t[k]
  {
  }

  /** After an upsert with an interval of at least a second, the item neither
      needs a sync nor is due for refresh at the same `now`. */
  lemma UpsertClearsNeedSync(t: Table, id: nat, data: string, d: Duration, now: Time)
    requires d >= NANOS_PER_SECOND
    ensures !NeedSync(Upserted(t, id, data, d, now), id, now)
    ensures !IsDue(Upserted(t, id, data, d, now)[id], now)
  {
  }

  /** Upserting the same item twice: `_created_at` stays what the first write
      made it, the second write decides payload and sync times, nothing else moves. */
  lemma UpsertTwice(t: Table, id: nat, data: string, d: Duration, first: Time, second: Time)
    requires d >= 0
    ensures var once := Upserted(t, id, data, d, first);
      var twice := Upserted(once, id, data, d, second);
      && twice.Keys == once.Keys
      && twice[id].createdAt == once[id].createdAt
      && twice[id] == once[id].(lastSyncedAt := second, nextSyncAt := second + d / NANOS_PER_SECOND)
      && forall k :: k in t && k != id ==> twice[k] == t[k]
  {
  }

  /** Marking changes only `_visible_at` of the named row, and nothing at all
      when the row is absent. */
  lemma MarkChangesOnlyVisibility(t: Table, id: nat, until: Time)
    ensures var r := MarkedInvisible(t, id, until);
      && r.Keys == t.Keys
      && (id in t ==> r[id] == t[id].(visibleAt := until))
      && forall k :: k in t && k != id ==> r[k] == t[k]
    ensures id !in t ==> MarkedInvisible(t, id, until) == t
  {
  }

  /** `itemNeedSync` ignores `_visible_at`: marking never changes its answer. */
  lemma MarkKeepsNeedSync(t: Table, id: nat, until: Time, x: nat, now: Time)
    ensures NeedSync(MarkedInvisible(t, id, until), x, now) == NeedSync(t, x, now)
  {
  }

  /** A marked row is not due for refresh before `until`. */
  lemma MarkedNotDueBeforeUntil(t: Table, id: nat, until: Time, now: Time)
    requires id in t && now < until
    ensures !IsDue(MarkedInvisible(t, id, until)[id], now)
  {
  }

  /** The eligibility boundary: a visible row is due at `next_sync_at = now`
      and not one second earlier, and a due row needs a sync. */
  lemma DueBoundary(t: Table, id: nat, now: Time)
    requires id in t && t[id].visibleAt <= now
    ensures t[id].nextSyncAt == now ==> IsDue(t[id], now)
    ensures t[id].nextSyncAt == now + 1 ==> !IsDue(t[id], now)
    ensures IsDue(t[id], now) ==> NeedSync(t, id, now)
  {
  }
}
