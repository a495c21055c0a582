/** The two task channels created in main.go and the cancellation context
    that every loop of the pipeline observes. */
module Channels {
  import opened Common

  /** What a non-blocking receive (`select` with `default`) observes. */
  datatype Received = Item(id: nat) | ClosedEmpty | NotReady

  /** A buffered `chan SyncItem`; a task carries only the item id. A send on a
      full channel blocks until a worker receives; the model does not bound
      the buffer, so that wait is not represented. */
  class Channel {
    var buffer: seq<nat>
    var closed: bool

    /** `make(chan SyncItem, 100)`. */
    constructor ()
      ensures buffer == [] && !closed
    {
      buffer := [];
      closed := false;
    }

    /** `ch <- SyncItem{ID: id}`; sending on a closed channel panics in Go. */
    method Send(id: nat)
      requires !closed
      modifies this
      ensures buffer == old(buffer) + [id] && !closed
    {
      buffer := buffer + [id];
    }

    /** `close(ch)`: buffered tasks stay receivable. */
    method Close()
      requires !closed
      modifies this
      ensures closed && buffer == old(buffer)
    {
      closed := true;
    }

    /** A receive case of a `select` with a `default` branch: a buffered task
        if there is one, "closed" once the channel is closed and drained, and
        otherwise the receive is not ready. */
    method TryReceive() returns (r: Received)
      modifies this
      ensures old(buffer) != [] ==> r == Item(old(buffer)[0]) && buffer == old(buffer)[1..]
      ensures old(buffer) == [] ==> buffer == [] && r == (if closed then ClosedEmpty else NotReady)
      ensures closed == old(closed)
    {
      if buffer != [] {
        r := Item(buffer[0]);
        buffer := buffer[1..];
      } else if closed {
        r := ClosedEmpty;
      } else {
        r := NotReady;
      }
    }
  }

  /** The shared `context.Context`. Cancellation comes from outside (the
      interrupt handler's `cancel()`) at any moment; once cancelled it stays
      cancelled. */
  class Context {
    var cancelled: bool

    constructor ()
      ensures !cancelled
    {
      cancelled := false;
    }

    /** One check of `ctx.Done()`: the signal may have arrived since the last check. */
    method Done() returns (done: bool)
      modifies this
      ensures old(cancelled) ==> cancelled
      ensures done == cancelled
    {
      var signal: bool := *;
      cancelled := cancelled || signal;
      done := cancelled;
    }
  }

  /** The send loops of the producers: `for id := lo; id < hi; id++`, with a
      check of `ctx.Done()` before each send. The backfill sends the gap
      below a persisted id this way, the discoverer the ids above the previous
      remote maximum. When it stops early, what it sent is a prefix of the range. */
  method SendRange(queue: Channel, ctx: Context, lo: nat, hi: nat) returns (cancelled: bool)
    requires !queue.closed
    modifies queue, ctx
    ensures !queue.closed
    ensures cancelled ==> ctx.cancelled
    ensures old(queue.buffer) <= queue.buffer
    ensures queue.buffer[|old(queue.buffer)|..] <= Range(lo, hi)
    ensures !cancelled ==> queue.buffer == old(queue.buffer) + Range(lo, hi)
  {
    var id := lo;
    while id < hi
      invariant lo <= id && (id <= hi || id == lo)
      invariant !queue.closed
      invariant queue.buffer == old(queue.buffer) + Range(lo, id)
    {
      var done := ctx.Done();
      if done {
        RangeSplit(lo, id, hi);
        return true;
      }
      queue.Send(id);
      RangeSplit(lo, id, id + 1);
      id := id + 1;
    }
    if hi <= lo {
      AppendEmpty(old(queue.buffer));
    }
    cancelled := false;
  }
}
