/** The backfill verifier (worker_backfill_verifier.go): a one-shot scan of
    the persisted ids up to a startup bound, in pages of 1000, that enqueues
    every id missing between two consecutive persisted ids. */
module Backfill {
  import opened Common
  import opened ItemStore
  import opened Channels

  /** `batchSize`. */
  const BATCH_SIZE: nat := 1000

  /** The ids strictly between `prev` and the first id of `ps`, then strictly
      between each two consecutive ids of `ps`. Nothing after the last id. */
  function Gaps(prev: nat, ps: seq<nat>): seq<nat>
    decreases |ps|
  {
    if ps == [] then [] else Range(prev + 1, ps[0]) + Gaps(ps[0], ps[1..])
  }

  /** Reference definition of the whole scan, unbatched: the gaps of
      `[0] ++ sorted(persisted ids in [1, upper])`. */
  function BackfillGaps(t: Table, upper: nat): seq<nat>
  {
    Gaps(0, Persisted(t, 0, upper))
  }

  /** `ps` is strictly ascending and starts above `prev`. */
  predicate Chain(prev: nat, ps: seq<nat>)
  {
    StrictlyAscending(ps) && (ps != [] ==> prev < ps[0])
  }

  /** The gap sequence of a chain is strictly ascending, lies strictly
      between `prev` and the last id of the chain, and avoids the chain. */
  lemma {:induction false} GapsAscending(prev: nat, ps: seq<nat>)
    requires Chain(prev, ps)
    ensures StrictlyAscending(Gaps(prev, ps))
    ensures forall i :: 0 <= i < |Gaps(prev, ps)| ==>
      prev < Gaps(prev, ps)[i] < ps[|ps| - 1] && Gaps(prev, ps)[i] !in ps
    decreases |ps|
  {
    if ps != [] {
      var head, tail := Range(prev + 1, ps[0]), Gaps(ps[0], ps[1..]);
      GapsAscending(ps[0], ps[1..]);
      RangeAscending(prev + 1, ps[0]);
      RangeIndex(prev + 1, ps[0]);
      assert Gaps(prev, ps) == head + tail;
      forall i | 0 <= i < |head|
        ensures head[i] !in ps
      {
        forall j | 0 <= j < |ps|
          ensures head[i] != ps[j]
        {
          assert ps[0] <= ps[j];
        }
      }
      forall i | 0 <= i < |tail|
        ensures tail[i] !in ps
      {
        assert tail[i] !in ps[1..];
        assert tail[i] != ps[0];
        assert ps == [ps[0]] + ps[1..];
      }
      forall i | 0 <= i < |head|
        ensures head[i] < ps[|ps| - 1]
      {
        assert ps[0] <= ps[|ps| - 1];
      }
    }
  }

  /** Membership in the gap sequence of a chain: exactly the ids above `prev`
      and below the last id of the chain that are not in the chain. */
  lemma {:induction false} GapsMembership(prev: nat, ps: seq<nat>, x: nat)
    requires Chain(prev, ps)
    ensures x in Gaps(prev, ps) <==> ps != [] && prev < x < ps[|ps| - 1] && x !in ps
    decreases |ps|
  {
    GapsAscending(prev, ps);
    if ps != [] {
      GapsMembership(ps[0], ps[1..], x);
      RangeMembership(prev + 1, ps[0], x);
      assert ps == [ps[0]] + ps[1..];
      if ps[1..] == [] {
        assert ps == [ps[0]];
      }
    }
  }

  /** What the scan emits, characterised: an id is emitted exactly when it is
      positive, has no row, and some persisted id above it is <= `upper`. */
  lemma BackfillGapsMembership(t: Table, upper: nat, x: nat)
    ensures x in BackfillGaps(t, upper) <==>
      0 < x && x !in t && exists k :: k in t && x < k <= upper
  {
    var ps := Persisted(t, 0, upper);
    PersistedSpec(t, 0, upper);
    GapsMembership(0, ps, x);
    if x in BackfillGaps(t, upper) {
      assert ps[|ps| - 1] in t && x < ps[|ps| - 1] <= upper;
      assert x !in t;
    }
    if 0 < x && x !in t && exists k :: k in t && x < k <= upper {
      var k :| k in t && x < k <= upper;
      assert k in ps;
      var j :| 0 <= j < |ps| && ps[j] == k;
      assert ps[j] <= ps[|ps| - 1];
      assert x !in ps;
    }
  }

  /** The scan's output is strictly ascending (so no id is emitted twice),
      every emitted id is below `upper`, and no persisted id is emitted. */
  lemma BackfillGapsShape(t: Table, upper: nat)
    ensures StrictlyAscending(BackfillGaps(t, upper))
    ensures Distinct(BackfillGaps(t, upper))
    ensures forall i :: 0 <= i < |BackfillGaps(t, upper)| ==>
      0 < BackfillGaps(t, upper)[i] < upper && BackfillGaps(t, upper)[i] !in t
  {
    var g := BackfillGaps(t, upper);
    PersistedSpec(t, 0, upper);
    GapsAscending(0, Persisted(t, 0, upper));
    AscendingIsDistinct(g);
    forall i | 0 <= i < |g|
      ensures 0 < g[i] < upper && g[i] !in t
    {
      BackfillGapsMembership(t, upper, g[i]);
    }
  }

  /** Persisted {1, 2, 5, 9} with bound 9: the scan emits exactly 3, 4, 6, 7, 8. */
  lemma BackfillExample(t: Table)
    requires t.Keys == {1, 2, 5, 9}
    ensures BackfillGaps(t, 9) == [3, 4, 6, 7, 8]
  {
    ScanExample(t, 9);
    ExampleGaps();
  }

  /** The gaps above the last persisted id are never emitted: persisted ids
      {1, 2, 5, 9} up to bound 12 emit 3, 4, 6, 7, 8 and not 10, 11 or 12,
      though none of them has a row. */
  lemma BackfillOmitsTail(t: Table)
    requires forall k :: 0 < k <= 12 ==> (k in t <==> k == 1 || k == 2 || k == 5 || k == 9)
    ensures BackfillGaps(t, 12) == [3, 4, 6, 7, 8]
    ensures 10 !in t && 10 !in BackfillGaps(t, 12)
  {
    assert 10 !in t;
    ScanExample(t, 12);
    ExampleGaps();
  }

  lemma ExampleGaps()
    ensures Gaps(0, [1, 2, 5, 9]) == [3, 4, 6, 7, 8]
  {
  }

  lemma ScanExample(t: Table, upper: nat)
    requires upper == 9 || upper == 12
    requires forall k :: 0 < k <= upper ==> (k in t <==> k == 1 || k == 2 || k == 5 || k == 9)
    ensures Persisted(t, 0, upper) == [1, 2, 5, 9]
  {
  }

  /** The largest persisted id <= `upper`, or 0 when there is none. */
  function LastPersisted(t: Table, upper: nat): (m: nat)
    ensures m <= upper
    ensures m == 0 || m in t
    ensures forall k :: k in t && k <= upper ==> k <= m
  {
    var ps := Persisted(t, 0, upper);
    PersistedSpec(t, 0, upper);
    if ps == [] then 0
    else
      assert forall k :: k in t && 0 < k <= upper ==> k in ps;
      assert forall j :: 0 <= j < |ps| ==> ps[j] <= ps[|ps| - 1];
      ps[|ps| - 1]
  }

  /** The scan as it was evidently meant to be, with the tail
      (last persisted id, upper] appended once the final page comes back empty. */
  function CompleteGaps(t: Table, upper: nat): seq<nat>
  {
    BackfillGaps(t, upper) + Range(LastPersisted(t, upper) + 1, upper + 1)
  }

  /** The corrected scan covers the whole range: an id is emitted exactly
      when it lies in [1, upper] and has no row. */
  lemma CompleteGapsMembership(t: Table, upper: nat, x: nat)
    ensures x in CompleteGaps(t, upper) <==> 0 < x <= upper && x !in t
  {
    var m := LastPersisted(t, upper);
    BackfillGapsMembership(t, upper, x);
    RangeMembership(m + 1, upper + 1, x);
    if 0 < x <= upper && x !in t && x <= m {
      assert x != m;
      assert m in t && x < m <= upper;
    }
    if x in BackfillGaps(t, upper) {
      var k :| k in t && x < k <= upper;
      assert k <= m;
    }
  }

  /** The last id of `ps`, or `prev` when `ps` is empty: where the cursor
      `prevId` stands after consuming `ps`. */
  function LastOr(prev: nat, ps: seq<nat>): nat
  {
    if ps == [] then prev else ps[|ps| - 1]
  }

  /** Scanning two pieces one after the other emits what scanning their
      concatenation emits, the second piece starting from where the first ended. */
  lemma {:induction false} GapsAppend(prev: nat, a: seq<nat>, b: seq<nat>)
    ensures Gaps(prev, a + b) == Gaps(prev, a) + Gaps(LastOr(prev, a), b)
    decreases |a|
  {
    if a != [] {
      var head := Range(prev + 1, a[0]);
      assert (a + b)[0] == a[0];
      assert (a + b)[1..] == a[1..] + b;
      GapsAppend(a[0], a[1..], b);
      assert LastOr(a[0], a[1..]) == LastOr(prev, a);
      calc {
        Gaps(prev, a + b);
        head + Gaps(a[0], a[1..] + b);
        head + (Gaps(a[0], a[1..]) + Gaps(LastOr(prev, a), b));
        (head + Gaps(a[0], a[1..])) + Gaps(LastOr(prev, a), b);
      }
    } else {
      assert a + b == b;
    }
  }

  /** Consuming one more id `c` emits the ids between the cursor and `c`. */
  lemma GapsStep(prev: nat, s: seq<nat>, i: nat)
    requires i < |s|
    ensures Gaps(prev, s[..i + 1]) == Gaps(prev, s[..i]) + Range(LastOr(prev, s[..i]) + 1, s[i])
  {
    var a, c := s[..i], s[i];
    assert s[..i + 1] == a + [c];
    GapsAppend(prev, a, [c]);
    assert Gaps(LastOr(prev, a), [c]) == Range(LastOr(prev, a) + 1, c) + Gaps(c, []);
  }

  /** The row loop's buffer invariant survives sending one more gap. */
  lemma BufferStep(start: seq<nat>, before: seq<nat>, after: seq<nat>, prev: nat, rows: seq<nat>, i: nat, last: nat)
    requires i < |rows| && last == LastOr(prev, rows[..i])
    requires before == start + Gaps(prev, rows[..i])
    requires after == before + Range(last + 1, rows[i])
    ensures after == start + Gaps(prev, rows[..i + 1])
  {
    GapsStep(prev, rows, i);
    AppendAssoc(start, Gaps(prev, rows[..i]), Range(last + 1, rows[i]));
  }

  /** Where the scan ends: once no persisted id is left above the cursor, the
      cursor stands on the largest persisted id <= `upper` (or on 0). */
  lemma ScanEndIsLast(t: Table, prev: nat, upper: nat)
    requires prev <= upper && (prev == 0 || prev in t)
    requires Persisted(t, prev, upper) == []
    ensures prev == LastPersisted(t, upper)
  {
    var m := LastPersisted(t, upper);
    PersistedSpec(t, prev, upper);
  }

  /** Stopping part-way through one piece of the output: if the buffer held
      `start + sent` before the piece and then grew by a prefix of `piece`, what
      was sent after `start` is a prefix of `sent + piece + rest`. */
  lemma StoppedPrefix(start: seq<nat>, before: seq<nat>, buf: seq<nat>,
                      sent: seq<nat>, piece: seq<nat>, rest: seq<nat>, full: seq<nat>)
    requires before == start + sent
    requires before <= buf && buf[|before|..] <= piece
    requires sent + piece + rest == full
    ensures start <= buf && buf[|start|..] <= full
  {
  }

  /** A page of the scan is followed by the scan that starts after its last
      id: paging with `start := prevId` neither skips nor repeats a persisted id. */
  lemma {:induction false} PersistedResume(t: Table, lo: nat, hi: nat, page: seq<nat>)
    requires page <= Persisted(t, lo, hi)
    ensures Persisted(t, lo, hi) == page + Persisted(t, LastOr(lo, page), hi)
    decreases |page|
  {
    if page != [] {
      var p := Persisted(t, lo, hi);
      PersistedCons(t, lo, hi);
      assert page[1..] <= p[1..];
      PersistedResume(t, p[0], hi, page[1..]);
      assert page == [p[0]] + page[1..];
      assert LastOr(p[0], page[1..]) == LastOr(lo, page);
    }
  }

  /** The batched scan emits what the unbatched scan emits: whatever was sent
      before a page, plus that page's gaps, plus the gaps of the scan resumed
      after the page, is the unbatched gap sequence. */
  lemma BatchedScan(t: Table, prev: nat, upper: nat, page: seq<nat>, sent: seq<nat>, full: seq<nat>)
    requires page <= Persisted(t, prev, upper)
    requires sent + Gaps(prev, Persisted(t, prev, upper)) == full
    ensures sent + Gaps(prev, page) + Gaps(LastOr(prev, page), Persisted(t, LastOr(prev, page), upper)) == full
  {
    var rest := Persisted(t, LastOr(prev, page), upper);
    PersistedResume(t, prev, upper, page);
    GapsAppend(prev, page, rest);
    AppendAssoc(sent, Gaps(prev, page), Gaps(LastOr(prev, page), rest));
  }

  /** The row loop of `backillVerifier` over one page of persisted ids: for
      each id, send the gap below it and move the cursor onto it. */
  method ScanPage(queue: Channel, ctx: Context, prevId: nat, rows: seq<nat>)
    returns (last: nat, hasRows: bool, cancelled: bool)
    requires !queue.closed
    modifies queue, ctx
    ensures !queue.closed
    ensures cancelled ==> ctx.cancelled
    ensures hasRows <==> rows != []
    ensures old(queue.buffer) <= queue.buffer
    ensures queue.buffer[|old(queue.buffer)|..] <= Gaps(prevId, rows)
    ensures !cancelled ==> queue.buffer == old(queue.buffer) + Gaps(prevId, rows) && last == LastOr(prevId, rows)
  {
    last := prevId;
    hasRows := false;
    var i := 0;
    while i < |rows|
      invariant 0 <= i <= |rows|
      invariant hasRows <==> i > 0
      invariant last == LastOr(prevId, rows[..i])
      invariant !queue.closed
      invariant queue.buffer == old(queue.buffer) + Gaps(prevId, rows[..i])
    {
      hasRows := true;
      var currentId := rows[i];
      ghost var before := queue.buffer;
      ghost var done := Gaps(prevId, rows[..i]);
      var stopped := SendRange(queue, ctx, last + 1, currentId);
      GapsStep(prevId, rows, i);
      if stopped {
        GapsAppend(prevId, rows[..i + 1], rows[i + 1..]);
        assert rows[..i + 1] + rows[i + 1..] == rows;
        StoppedPrefix(old(queue.buffer), before, queue.buffer, done,
                      Range(last + 1, currentId), Gaps(currentId, rows[i + 1..]), Gaps(prevId, rows));
        return last, hasRows, true;
      }
      BufferStep(old(queue.buffer), before, queue.buffer, prevId, rows, i, last);
      last := currentId;
      i := i + 1;
    }
    assert rows[..i] == rows;
    cancelled := false;
  }

  /** `backillVerifier`: pages through the persisted ids <= `upperBound`,
      1000 at a time, with the cursor `prevId` at the last id seen, and sends
      every id between consecutive persisted ids to the new queue. It checks
      for cancellation before each page and before each send. Unless it was
      cancelled, it has sent exactly the unbatched gap sequence; if it was,
      what it sent so far is a prefix of that sequence. */
  method BackfillVerifier(queue: Channel, ctx: Context, store: Store, upperBound: nat)
    returns (cancelled: bool, prevId: nat)
    requires !queue.closed
    modifies queue, ctx
    ensures !queue.closed
    ensures cancelled ==> ctx.cancelled
    ensures old(queue.buffer) <= queue.buffer
    ensures queue.buffer[|old(queue.buffer)|..] <= BackfillGaps(store.rows, upperBound)
    ensures !cancelled ==> queue.buffer == old(queue.buffer) + BackfillGaps(store.rows, upperBound)
    ensures !cancelled ==> prevId == LastPersisted(store.rows, upperBound)
  {
    var t := store.rows;
    ghost var full := BackfillGaps(t, upperBound);
    ghost var sent: seq<nat> := [];
    prevId := 0;
    AppendEmpty(old(queue.buffer));
    AppendEmpty(full);
    while true
      invariant !queue.closed
      invariant prevId <= upperBound && (prevId == 0 || prevId in t)
      invariant queue.buffer == old(queue.buffer) + sent
      invariant sent + Gaps(prevId, Persisted(t, prevId, upperBound)) == full
      decreases upperBound - prevId
    {
      var done := ctx.Done();
      if done {
        DropPrefix(old(queue.buffer), sent);
        PrefixInContext([], sent, sent, Gaps(prevId, Persisted(t, prevId, upperBound)));
        AppendEmpty(sent);
        return true, prevId;
      }
      var rows := SelectItemsStartingAtId(t, prevId, upperBound, BATCH_SIZE);
      BatchedScan(t, prevId, upperBound, rows, sent, full);
      ghost var before := queue.buffer;
      var last, hasRows, stopped := ScanPage(queue, ctx, prevId, rows);
      if stopped {
        StoppedPrefix(old(queue.buffer), before, queue.buffer, sent, Gaps(prevId, rows),
                      Gaps(LastOr(prevId, rows), Persisted(t, LastOr(prevId, rows), upperBound)), full);
        return true, prevId;
      }
      AppendAssoc(old(queue.buffer), sent, Gaps(prevId, rows));
      sent := sent + Gaps(prevId, rows);
      prevId := last;
      if !hasRows {
        AppendEmpty(sent);
        ScanEndIsLast(t, prevId, upperBound);
        break;
      }
    }
    cancelled := false;
  }

  /** The backfill as it was evidently meant to run: after the final empty
      page, it also sends the tail (last persisted id, `upperBound`]. */
  method CompleteBackfill(queue: Channel, ctx: Context, store: Store, upperBound: nat)
    returns (cancelled: bool)
    requires !queue.closed
    modifies queue, ctx
    ensures !queue.closed
    ensures cancelled ==> ctx.cancelled
    ensures old(queue.buffer) <= queue.buffer
    ensures queue.buffer[|old(queue.buffer)|..] <= CompleteGaps(store.rows, upperBound)
    ensures !cancelled ==> queue.buffer == old(queue.buffer) + CompleteGaps(store.rows, upperBound)
  {
    var prevId;
    cancelled, prevId := BackfillVerifier(queue, ctx, store, upperBound);
    ghost var scanned := queue.buffer;
    ghost var gaps := BackfillGaps(store.rows, upperBound);
    ghost var tail := Range(LastPersisted(store.rows, upperBound) + 1, upperBound + 1);
    if cancelled {
      PrefixInContext([], queue.buffer[|old(queue.buffer)|..], gaps, tail);
      AppendEmpty(gaps);
      AppendEmpty(queue.buffer[|old(queue.buffer)|..]);
      return;
    }
    cancelled := SendRange(queue, ctx, prevId + 1, upperBound + 1);
    StoppedPrefix(old(queue.buffer), scanned, queue.buffer, gaps, tail, [], CompleteGaps(store.rows, upperBound));
    if !cancelled {
      AppendAssoc(old(queue.buffer), gaps, tail);
    }
  }
}
