/** The discoverer (worker_discoverer.go): polls the remote maximum item id
    and enqueues every id above the previous maximum on the new queue, once
    per cycle, until cancelled. The remote answer of the k-th cycle is the
    k-th element of `polls`. */
module Discoverer {
  import opened Common
  import opened Channels

  /** `maxItem` after `fetchMaxItem(&maxItem, client)`: the decoded value on
      success; on any error the variable keeps the value it had. */
  function FetchMaxItem(maxItem: nat, poll: Result<nat>): nat
  {
    match poll
    case Ok(n) => n
    case Err(_) => maxItem
  }

  /** Reference definition of the output: the ids enqueued by a run of
      completed cycles that starts with `prevMaxItem = prev`. */
  function Discovered(prev: nat, polls: seq<Result<nat>>): seq<nat>
    decreases |polls|
  {
    if polls == [] then []
    else
      var m := FetchMaxItem(prev, polls[0]);
      Range(prev + 1, m + 1) + Discovered(m, polls[1..])
  }

  /** `prevMaxItem` after a run of completed cycles. */
  function FinalMax(prev: nat, polls: seq<Result<nat>>): nat
    decreases |polls|
  {
    if polls == [] then prev else FinalMax(FetchMaxItem(prev, polls[0]), polls[1..])
  }

  /** The remote maximum, as the discoverer sees it, never goes down. */
  predicate NonDecreasing(prev: nat, polls: seq<Result<nat>>)
    decreases |polls|
  {
    polls == [] ||
    (prev <= FetchMaxItem(prev, polls[0]) && NonDecreasing(FetchMaxItem(prev, polls[0]), polls[1..]))
  }

  /** One cycle emits `prevMaxItem+1 .. maxItem` and leaves `prevMaxItem = maxItem`. */
  lemma OneCycle(prev: nat, poll: Result<nat>)
    ensures Discovered(prev, [poll]) == Range(prev + 1, FetchMaxItem(prev, poll) + 1)
    ensures FinalMax(prev, [poll]) == FetchMaxItem(prev, poll)
  {
  }

  /** The ids of one cycle are ascending, so each is sent once, and they are
      exactly the ids above `prevMaxItem` up to the fetched maximum. */
  lemma OneCycleShape(prev: nat, poll: Result<nat>, x: nat)
    ensures StrictlyAscending(Discovered(prev, [poll]))
    ensures x in Discovered(prev, [poll]) <==> prev < x <= FetchMaxItem(prev, poll)
  {
    OneCycle(prev, poll);
    RangeAscending(prev + 1, FetchMaxItem(prev, poll) + 1);
    RangeMembership(prev + 1, FetchMaxItem(prev, poll) + 1, x);
  }

  /** A failed fetch keeps `maxItem`, so its cycle emits nothing and the run
      continues as if the cycle had not happened. */
  lemma FetchErrorEmitsNothing(prev: nat, e: Error, rest: seq<Result<nat>>)
    ensures Discovered(prev, [Err(e)] + rest) == Discovered(prev, rest)
    ensures FinalMax(prev, [Err(e)] + rest) == FinalMax(prev, rest)
  {
  }

  /** A fetched maximum at or below `prevMaxItem` emits nothing, and
      `prevMaxItem` still takes the fetched value, even when it is lower. */
  lemma LowerMaxEmitsNothing(prev: nat, n: nat)
    requires n <= prev
    ensures Discovered(prev, [Ok(n)]) == []
    ensures FinalMax(prev, [Ok(n)]) == n
  {
  }

  /** While the remote maximum never goes down, the whole output is
      `start+1 .. last maximum`: ascending, without gaps and without repeats. */
  lemma {:induction false} NonDecreasingRun(start: nat, polls: seq<Result<nat>>)
    requires NonDecreasing(start, polls)
    ensures start <= FinalMax(start, polls)
    ensures Discovered(start, polls) == Range(start + 1, FinalMax(start, polls) + 1)
    decreases |polls|
  {
    if polls != [] {
      var m := FetchMaxItem(start, polls[0]);
      NonDecreasingRun(m, polls[1..]);
      RangeSplit(start + 1, m + 1, FinalMax(start, polls) + 1);
    }
  }

  /** Hence no id is enqueued twice while the remote maximum never goes down. */
  lemma NonDecreasingNoRepeats(start: nat, polls: seq<Result<nat>>)
    requires NonDecreasing(start, polls)
    ensures StrictlyAscending(Discovered(start, polls))
    ensures Distinct(Discovered(start, polls))
  {
    NonDecreasingRun(start, polls);
    RangeAscending(start + 1, FinalMax(start, polls) + 1);
    AscendingIsDistinct(Discovered(start, polls));
  }

  /** Whatever the remote answers, as long as no answer is below `floor` and
      the run starts at or above it, every emitted id is above `floor`. */
  lemma {:induction false} DiscoveredAbove(start: nat, polls: seq<Result<nat>>, floor: nat)
    requires floor <= start
    requires forall p :: p in polls && p.Ok? ==> floor <= p.value
    ensures forall x :: x in Discovered(start, polls) ==> floor < x
    decreases |polls|
  {
    if polls != [] {
      var m := FetchMaxItem(start, polls[0]);
      assert forall p :: p in polls[1..] ==> p in polls;
      DiscoveredAbove(m, polls[1..], floor);
      RangeIndex(start + 1, m + 1);
    }
  }

  /** An empty store and a remote maximum of 5: the first cycle enqueues 1..5. */
  lemma FirstCycleExample()
    ensures Discovered(0, [Ok(5)]) == [1, 2, 3, 4, 5]
  {
  }

  /** A remote maximum that goes down and back up makes the discoverer
      enqueue the same ids again: answers 3, 1, 3 from 0 emit 1, 2, 3, 2, 3. */
  lemma RegressionRepeatsExample()
    ensures Discovered(0, [Ok(3), Ok(1), Ok(3)]) == [1, 2, 3, 2, 3]
  {
  }

  /** One cycle as the loop body runs it: fetch, then send `prevMaxItem+1 ..
      maxItem` with a cancellation check before each send. On completion the
      caller sets `prevMaxItem := maxItem`. */
  method DiscoverCycle(queue: Channel, ctx: Context, prevMaxItem: nat, maxItem: nat, poll: Result<nat>)
    returns (maxItem': nat, cancelled: bool)
    requires !queue.closed
    modifies queue, ctx
    ensures maxItem' == FetchMaxItem(maxItem, poll)
    ensures !queue.closed
    ensures cancelled ==> ctx.cancelled
    ensures old(queue.buffer) <= queue.buffer
    ensures queue.buffer[|old(queue.buffer)|..] <= Range(prevMaxItem + 1, maxItem' + 1)
    ensures !cancelled ==> queue.buffer == old(queue.buffer) + Range(prevMaxItem + 1, maxItem' + 1)
  {
    maxItem' := maxItem;
    match poll {
      case Ok(n) => maxItem' := n;
      case Err(_) =>
    }
    cancelled := SendRange(queue, ctx, prevMaxItem + 1, maxItem' + 1);
  }

  /** `discoverer` started with `prevMaxItem = start`, run for `|polls|`
      cycles. Between cycles it waits for the next tick unless cancelled.
      Unless it was cancelled, it has enqueued exactly `Discovered(start, polls)`
      and `prevMaxItem` is the last maximum seen; if it was, what it enqueued
      is a prefix of that. */
  method Discover(queue: Channel, ctx: Context, start: nat, polls: seq<Result<nat>>)
    returns (cancelled: bool, prevMaxItem: nat)
    requires !queue.closed
    modifies queue, ctx
    ensures !queue.closed
    ensures cancelled ==> ctx.cancelled
    ensures old(queue.buffer) <= queue.buffer
    ensures queue.buffer[|old(queue.buffer)|..] <= Discovered(start, polls)
    ensures !cancelled ==>
      queue.buffer == old(queue.buffer) + Discovered(start, polls) && prevMaxItem == FinalMax(start, polls)
  {
    var maxItem := start;
    prevMaxItem := start;
    ghost var full := Discovered(start, polls);
    ghost var sent: seq<nat> := [];
    AppendEmpty(old(queue.buffer));
    AppendEmpty(full);
    var k := 0;
    while k < |polls|
      invariant 0 <= k <= |polls|
      invariant maxItem == prevMaxItem
      invariant !queue.closed
      invariant queue.buffer == old(queue.buffer) + sent
      invariant sent + Discovered(prevMaxItem, polls[k..]) == full
      invariant FinalMax(prevMaxItem, polls[k..]) == FinalMax(start, polls)
    {
      ghost var before := queue.buffer;
      ghost var rest := Discovered(maxItem, polls[k..]);
      var stopped;
      maxItem, stopped := DiscoverCycle(queue, ctx, prevMaxItem, maxItem, polls[k]);
      ghost var emitted := Range(prevMaxItem + 1, maxItem + 1);
      assert polls[k..][1..] == polls[k + 1..];
      AppendAssoc(sent, emitted, Discovered(maxItem, polls[k + 1..]));
      if stopped {
        PrefixInContext(sent, queue.buffer[|before|..], emitted, Discovered(maxItem, polls[k + 1..]));
        assert queue.buffer[|old(queue.buffer)|..] == sent + queue.buffer[|before|..];
        return true, prevMaxItem;
      }
      AppendAssoc(old(queue.buffer), sent, emitted);
      sent := sent + emitted;
      prevMaxItem := maxItem;
      var done := ctx.Done();
      if done {
        DropPrefix(old(queue.buffer), sent);
        PrefixInContext([], sent, sent, Discovered(prevMaxItem, polls[k + 1..]));
        AppendEmpty(sent);
        return true, prevMaxItem;
      }
      k := k + 1;
    }
    AppendEmpty(sent);
    cancelled := false;
  }
}
